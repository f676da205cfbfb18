/** The selector parser as the source runs it: a `Selector` object whose
  * fields are updated in place while one clause is scanned left to right with
  * a three-valued mode and a character accumulator that is flushed at every
  * `.` or `#` and at the end. */
module SelectorObject {
  import opened Lists
  import opened SelectorParsing

  /** `Selector`: a dataclass whose fields the parser updates in place. */
  class Selector {
    var id: string
    var klass: set<string>
    var tag: string

    constructor ()
      ensures Value() == Universal
    {
      id := "";
      klass := {};
      tag := "";
    }

    function Value(): SelectorValue
      reads this
    {
      SelectorValue(id, klass, tag)
    }

    /** `update_by_mode`: flushes the accumulator into the field the mode
      * selects and clears it; an empty accumulator changes nothing. */
    method UpdateByMode(mode: Mode, chars: MutableList<char>)
      modifies this, chars
      ensures Value() == Flush(old(Value()), mode, old(chars.items))
      ensures chars.items == []
    {
      if |chars.items| == 0 {
        return;
      }
      var value := chars.items;
      chars.Clear();
      match mode
      case Id => id := value;
      case Class => klass := klass + {value};
      case Tag => tag := value;
    }

    /** `from_str`: the scan with a mode and an accumulator. */
    static method FromStr(selector: string) returns (sel: Selector)
      ensures sel.Value() == Parse(selector)
    {
      sel := new Selector();
      var mode := Tag;
      var chars := new MutableList<char>();
      for i := 0 to |selector|
        invariant var rs := Runs(selector[..i]);
          sel.Value() == ApplyRuns(Universal, rs[..|rs| - 1]) &&
          mode == rs[|rs| - 1].mode && chars.items == rs[|rs| - 1].text
      {
        var ch := selector[i];
        ghost var prev := Runs(selector[..i]);
        assert selector[..i + 1][..i] == selector[..i];
        assert ApplyRuns(Universal, prev) == Flush(sel.Value(), mode, chars.items);
        if ch == '.' {
          sel.UpdateByMode(mode, chars);
          mode := Class;
          continue;
        } else if ch == '#' {
          sel.UpdateByMode(mode, chars);
          mode := Id;
          continue;
        }
        chars.Append(ch);
        assert Runs(selector[..i + 1])[..|prev| - 1] == prev[..|prev| - 1];
      }
      assert selector[..|selector|] == selector;
      sel.UpdateByMode(mode, chars);
    }
  }
}
