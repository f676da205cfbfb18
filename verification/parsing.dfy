/** What the selector parser computes: one clause such as
  * `div#topDiv.container` is cut into runs at every `.` or `#`, and each run
  * is flushed, in order, into the field its mode selects. */
module SelectorParsing {
  import opened Lists

  /** Which field the accumulated characters are flushed into. */
  datatype Mode = Id | Class | Tag

  /** The value of a selector: required id, required classes, required tag;
    * an empty string or empty set leaves that part unconstrained. */
  datatype SelectorValue = SelectorValue(id: string, klass: set<string>, tag: string)

  /** The selector a fresh `Selector()` holds, which matches every node. */
  const Universal: SelectorValue := SelectorValue("", {}, "")

  predicate IsSeparator(c: char)
  {
    c == '.' || c == '#'
  }

  predicate NoSeparator(s: string)
  {
    '.' !in s && '#' !in s
  }

  /** The mode a separator switches to. */
  function ModeAfter(c: char): Mode
  {
    if c == '.' then Class else Id
  }

  /** The separator that introduces a run in the given (non-tag) mode. */
  function SeparatorOf(m: Mode): char
  {
    if m == Class then '.' else '#'
  }

  /** What flushing the accumulator `chars` in `mode` does to a selector:
    * nothing when it is empty; otherwise the id or tag is overwritten, or the
    * chars become one more class. */
  function Flush(sel: SelectorValue, mode: Mode, chars: string): (r: SelectorValue)
    ensures chars == [] ==> r == sel
    ensures chars != [] && mode == Id ==> r.id == chars
    ensures chars != [] && mode == Class ==> r.klass == sel.klass + {chars}
    ensures chars != [] && mode == Tag ==> r.tag == chars
    ensures mode != Id ==> r.id == sel.id
    ensures mode != Class ==> r.klass == sel.klass
    ensures mode != Tag ==> r.tag == sel.tag
    ensures sel.klass <= r.klass
  {
    if chars == [] then sel
    else match mode
      case Id => sel.(id := chars)
      case Class => sel.(klass := sel.klass + {chars})
      case Tag => sel.(tag := chars)
  }

  /** A run: the characters between two separators, with the mode that was
    * current while they were read. */
  datatype Run = Run(mode: Mode, text: string)

  /** The shape every split of a clause into runs has: a first run in tag
    * mode, every later run introduced by a separator, no separator in any
    * run's text. */
  predicate WellFormedRuns(rs: seq<Run>)
  {
    |rs| >= 1 && rs[0].mode == Tag &&
    (forall i :: 1 <= i < |rs| ==> rs[i].mode != Tag) &&
    (forall i :: 0 <= i < |rs| ==> NoSeparator(rs[i].text))
  }

  /** One character of the scan: a separator closes the current run and opens
    * an empty one in the mode it selects; any other character extends the
    * current run. */
  function Step(rs: seq<Run>, c: char): seq<Run>
    requires |rs| >= 1
  {
    if IsSeparator(c) then rs + [Run(ModeAfter(c), [])] else Extend(rs, [c])
  }

  /** Appends `w` to the text of the current (last) run. */
  function Extend(rs: seq<Run>, w: string): seq<Run>
    requires |rs| >= 1
  {
    var last := rs[|rs| - 1];
    rs[..|rs| - 1] + [Run(last.mode, last.text + w)]
  }

  /** The runs of a clause, as the scan meets them, starting from an empty
    * tag run. */
  function Runs(s: string): (rs: seq<Run>)
    ensures |rs| >= 1
    decreases |s|
  {
    if s == [] then [Run(Tag, [])] else Step(Runs(s[..|s| - 1]), s[|s| - 1])
  }

  /** Writes runs back as text, each later run preceded by its separator. */
  function Unrun(rs: seq<Run>): string
    requires |rs| >= 1
  {
    if |rs| == 1 then rs[0].text
    else
      var last := rs[|rs| - 1];
      Unrun(rs[..|rs| - 1]) + [SeparatorOf(last.mode)] + last.text
  }

  /** Flushes the runs into `sel` in order. */
  function ApplyRuns(sel: SelectorValue, rs: seq<Run>): SelectorValue
  {
    if rs == [] then sel
    else
      var last := rs[|rs| - 1];
      Flush(ApplyRuns(sel, rs[..|rs| - 1]), last.mode, last.text)
  }

  /** `Selector.from_str`, as a function: the clause's runs flushed in order
    * into the universal selector (the final flush at the end of the input
    * is the flush of the last run). Whatever the input, no class is empty
    * and no field holds a `.` or `#`. */
  function Parse(s: string): (r: SelectorValue)
    ensures Clean(r)
  {
    RunsWellFormed(s);
    ApplyRunsFields(Runs(s));
    ApplyRuns(Universal, Runs(s))
  }

  /** The classes a list of runs contributes: every non-empty class run. */
  function ClassesOf(rs: seq<Run>): set<string>
  {
    set i | 0 <= i < |rs| && rs[i].mode == Class && rs[i].text != [] :: rs[i].text
  }

  /** The text of the last non-empty run in mode `m`, or "" if there is none. */
  function LastText(rs: seq<Run>, m: Mode): (r: string)
    ensures r == [] || exists i :: 0 <= i < |rs| && rs[i].mode == m && rs[i].text == r
  {
    if rs == [] then []
    else
      var last := rs[|rs| - 1];
      if last.mode == m && last.text != [] then last.text
      else LastText(rs[..|rs| - 1], m)
  }

  // ---------------------------------------------------------------------
  // Runs: the split and its inverse

  /** Every clause splits into well-formed runs. */
  lemma {:induction false} RunsWellFormed(s: string)
    ensures WellFormedRuns(Runs(s))
    decreases |s|
  {
    if s != [] {
      var p := s[..|s| - 1];
      var c := s[|s| - 1];
      var prev := Runs(p);
      RunsWellFormed(p);
      assert Runs(s) == Step(prev, c);
      StepWellFormed(prev, c);
    }
  }

  /** One step of the scan keeps the runs well formed. */
  lemma StepWellFormed(rs: seq<Run>, c: char)
    requires WellFormedRuns(rs)
    ensures WellFormedRuns(Step(rs, c))
  {
    var next := Step(rs, c);
    if IsSeparator(c) {
      assert forall i :: 0 <= i < |rs| ==> next[i] == rs[i];
    } else {
      var last := rs[|rs| - 1];
      assert forall i :: 0 <= i < |rs| - 1 ==> next[i] == rs[i];
      assert NoSeparator(last.text + [c]);
    }
  }

  /** Writing the runs of a clause back gives the clause. */
  lemma {:induction false} RunsRoundTrip(s: string)
    ensures Unrun(Runs(s)) == s
    decreases |s|
  {
    if s != [] {
      var p := s[..|s| - 1];
      var c := s[|s| - 1];
      assert s == p + [c];
      var prev := Runs(p);
      RunsRoundTrip(p);
      RunsSnoc(p, c);
      if IsSeparator(c) {
        UnrunSnoc(prev, Run(ModeAfter(c), []));
      } else {
        UnrunExtend(prev, [c]);
      }
    }
  }

  /** Extending the current run extends the text. */
  lemma UnrunExtend(rs: seq<Run>, w: string)
    requires |rs| >= 1
    ensures Unrun(Extend(rs, w)) == Unrun(rs) + w
  {
    if |rs| == 1 {
      UnrunExtendSingle(rs, w);
    } else {
      UnrunExtendMany(rs, w);
    }
  }

  lemma UnrunExtendSingle(rs: seq<Run>, w: string)
    requires |rs| == 1
    ensures Unrun(Extend(rs, w)) == Unrun(rs) + w
  {
    var last := rs[|rs| - 1];
    assert Extend(rs, w) == [Run(last.mode, last.text + w)];
  }

  lemma UnrunExtendMany(rs: seq<Run>, w: string)
    requires |rs| > 1
    ensures Unrun(Extend(rs, w)) == Unrun(rs) + w
  {
    var pre := rs[..|rs| - 1];
    var last := rs[|rs| - 1];
    assert rs == pre + [last];
    UnrunSnocExtend(pre, last, w);
  }

  lemma UnrunSnocExtend(pre: seq<Run>, last: Run, w: string)
    requires |pre| >= 1
    ensures Unrun(pre + [Run(last.mode, last.text + w)]) == Unrun(pre + [last]) + w
  {
    var a := Unrun(pre) + [SeparatorOf(last.mode)];
    UnrunSnoc(pre, last);
    UnrunSnoc(pre, Run(last.mode, last.text + w));
    Associative(a, last.text, w);
  }

  lemma UnrunSnoc(rs: seq<Run>, r: Run)
    requires |rs| >= 1
    ensures Unrun(rs + [r]) == Unrun(rs) + [SeparatorOf(r.mode)] + r.text
  {
    assert (rs + [r])[..|rs|] == rs;
  }

  /** One more character is one more step of the scan. */
  lemma RunsSnoc(p: string, c: char)
    ensures Runs(p + [c]) == Step(Runs(p), c)
  {
    assert (p + [c])[..|p|] == p;
  }

  /** Characters without separators extend the current run. */
  lemma {:induction false} RunsExtend(p: string, w: string)
    requires NoSeparator(w)
    ensures Runs(p + w) == Extend(Runs(p), w)
    decreases |w|
  {
    if w == [] {
      var prev := Runs(p);
      assert p + w == p;
      assert prev[|prev| - 1].text + w == prev[|prev| - 1].text;
      assert prev == prev[..|prev| - 1] + [prev[|prev| - 1]];
    } else {
      var v := w[..|w| - 1];
      var c := w[|w| - 1];
      assert w == v + [c];
      assert NoSeparator(v) by { assert forall x :: x in v ==> x in w; }
      assert !IsSeparator(c) by { assert c in w; }
      RunsExtend(p, v);
      RunsSnoc(p + v, c);
      Associative(p, v, [c]);
      ExtendTwice(Runs(p), v, [c]);
    }
  }

  lemma ExtendTwice(rs: seq<Run>, v: string, u: string)
    requires |rs| >= 1
    ensures Extend(Extend(rs, v), u) == Extend(rs, v + u)
  {
    var mid := Extend(rs, v);
    assert mid[..|mid| - 1] == rs[..|rs| - 1];
    assert rs[|rs| - 1].text + v + u == rs[|rs| - 1].text + (v + u);
  }

  /** Splitting the text of well-formed runs gives back those runs. */
  lemma {:induction false} UnrunRoundTrip(rs: seq<Run>)
    requires WellFormedRuns(rs)
    ensures Runs(Unrun(rs)) == rs
    decreases |rs|
  {
    if |rs| == 1 {
      RunsExtend([], rs[0].text);
      assert [] + rs[0].text == rs[0].text;
    } else {
      var pre := rs[..|rs| - 1];
      var r := rs[|rs| - 1];
      assert rs == pre + [r];
      WellFormedPrefix(rs);
      UnrunRoundTrip(pre);
      var c := SeparatorOf(r.mode);
      assert ModeAfter(c) == r.mode;
      var p := Unrun(pre) + [c];
      RunsSnoc(Unrun(pre), c);
      RunsExtend(p, r.text);
      var started := pre + [Run(r.mode, [])];
      assert started[..|started| - 1] == pre;
      assert [] + r.text == r.text;
      UnrunSnoc(pre, r);
    }
  }

  lemma WellFormedPrefix(rs: seq<Run>)
    requires WellFormedRuns(rs) && |rs| > 1
    ensures WellFormedRuns(rs[..|rs| - 1])
  {
    assert forall i :: 0 <= i < |rs| - 1 ==> rs[..|rs| - 1][i] == rs[i];
  }

  // ---------------------------------------------------------------------
  // The fields of a parsed selector

  lemma {:induction false} ApplyRunsFields(rs: seq<Run>)
    ensures ApplyRuns(Universal, rs) == SelectorValue(LastText(rs, Id), ClassesOf(rs), LastText(rs, Tag))
    decreases |rs|
  {
    if rs != [] {
      var pre := rs[..|rs| - 1];
      var r := rs[|rs| - 1];
      ApplyRunsFields(pre);
      assert rs == pre + [r];
      ClassesOfSnoc(pre, r);
    }
  }

  /** Adding a run adds its text to the classes when it is a non-empty class
    * run, and nothing otherwise. */
  lemma ClassesOfSnoc(pre: seq<Run>, r: Run)
    ensures ClassesOf(pre + [r]) ==
      ClassesOf(pre) + if r.mode == Class && r.text != [] then {r.text} else {}
  {
    var rs := pre + [r];
    var extra := if r.mode == Class && r.text != [] then {r.text} else {};
    forall x | x in ClassesOf(rs) ensures x in ClassesOf(pre) + extra {
      var i :| 0 <= i < |rs| && rs[i].mode == Class && rs[i].text != [] && rs[i].text == x;
      if i < |pre| { assert pre[i] == rs[i]; }
    }
    forall x | x in ClassesOf(pre) ensures x in ClassesOf(rs) {
      var i :| 0 <= i < |pre| && pre[i].mode == Class && pre[i].text != [] && pre[i].text == x;
      assert rs[i] == pre[i];
    }
    if extra != {} {
      assert rs[|rs| - 1] == r;
    }
  }

  /** In well-formed runs only the first run is a tag run. */
  lemma {:induction false} TagIsFirstRun(rs: seq<Run>)
    requires WellFormedRuns(rs)
    ensures LastText(rs, Tag) == rs[0].text
    decreases |rs|
  {
    if |rs| > 1 {
      var pre := rs[..|rs| - 1];
      assert WellFormedRuns(pre) by {
        assert forall i :: 0 <= i < |pre| ==> pre[i] == rs[i];
      }
      TagIsFirstRun(pre);
    } else {
      assert rs[..0] == [];
    }
  }

  /** The parsed selector, field by field: the id is the last non-empty id
    * run (so repeated `#` runs keep only the last), the classes are all
    * non-empty class runs (so class runs accumulate), the tag is the run
    * before the first separator. */
  lemma ParseFields(s: string)
    ensures var rs := Runs(s);
      Parse(s) == SelectorValue(LastText(rs, Id), ClassesOf(rs), rs[0].text)
  {
    RunsWellFormed(s);
    ApplyRunsFields(Runs(s));
    TagIsFirstRun(Runs(s));
  }

  /** The selector read from the text of well-formed runs: the runs flushed
    * in order, and field by field. */
  lemma ParseOfRuns(rs: seq<Run>)
    requires WellFormedRuns(rs)
    ensures Parse(Unrun(rs)) == ApplyRuns(Universal, rs)
    ensures Parse(Unrun(rs)) == SelectorValue(LastText(rs, Id), ClassesOf(rs), rs[0].text)
  {
    UnrunRoundTrip(rs);
    ParseFields(Unrun(rs));
  }

  /** No empty class and no separator in any field. */
  predicate Clean(sel: SelectorValue)
  {
    [] !in sel.klass && NoSeparator(sel.id) && NoSeparator(sel.tag) &&
    forall c :: c in sel.klass ==> NoSeparator(c)
  }

  /** The tag is the longest separator-free prefix of the clause. */
  lemma ParseTag(s: string)
    ensures var t := Parse(s).tag;
      |t| <= |s| && t == s[..|t|] && NoSeparator(t) && (|t| == |s| || IsSeparator(s[|t|]))
  {
    ParseFields(s);
    RunsWellFormed(s);
    RunsRoundTrip(s);
    UnrunHead(Runs(s));
  }

  lemma {:induction false} UnrunHead(rs: seq<Run>)
    requires |rs| >= 1
    ensures var t := rs[0].text; var u := Unrun(rs);
      |t| <= |u| && u[..|t|] == t && (|t| == |u| || IsSeparator(u[|t|]))
    decreases |rs|
  {
    if |rs| > 1 {
      var pre := rs[..|rs| - 1];
      var last := rs[|rs| - 1];
      UnrunHead(pre);
      assert pre[0] == rs[0];
      var t := rs[0].text;
      var u := Unrun(rs);
      assert u == Unrun(pre) + [SeparatorOf(last.mode)] + last.text;
      assert u[..|t|] == Unrun(pre)[..|t|];
    }
  }

  /** A clause without separators is all tag. */
  lemma ParseNoSeparator(s: string)
    requires NoSeparator(s)
    ensures Parse(s) == SelectorValue("", {}, s)
  {
    RunsExtend([], s);
    assert [] + s == s;
    assert [Run(Tag, [])][..0] == [];
    assert Runs(s) == [Run(Tag, s)];
    assert [Run(Tag, s)][..0] == [];
  }

  /** A separator at the end opens an empty run, whose flush is a no-op:
    * `div.` and `div..` parse like `div`. */
  lemma ParseTrailingSeparator(s: string, c: char)
    requires IsSeparator(c)
    ensures Parse(s + [c]) == Parse(s)
  {
    var rs := Runs(s + [c]);
    assert (s + [c])[..|s|] == s;
    assert rs[..|rs| - 1] == Runs(s);
  }

  /** A clause of three runs: a tag run and two runs introduced by
    * separators, flushed in order. */
  lemma ParseThreeRuns(t0: string, m1: Mode, t1: string, m2: Mode, t2: string)
    requires NoSeparator(t0) && NoSeparator(t1) && NoSeparator(t2)
    requires m1 != Tag && m2 != Tag
    ensures Parse(t0 + [SeparatorOf(m1)] + t1 + [SeparatorOf(m2)] + t2) ==
      Flush(Flush(Flush(Universal, Tag, t0), m1, t1), m2, t2)
  {
    var r0 := [Run(Tag, t0)];
    var r1 := r0 + [Run(m1, t1)];
    var rs := r1 + [Run(m2, t2)];
    ThreeRunsWellFormed(t0, m1, t1, m2, t2);
    UnrunSnoc(r0, Run(m1, t1));
    UnrunSnoc(r1, Run(m2, t2));
    assert Unrun(rs) == t0 + [SeparatorOf(m1)] + t1 + [SeparatorOf(m2)] + t2;
    ParseOfRuns(rs);
    ApplyRunsSnoc(r1, Run(m2, t2));
    ApplyRunsSnoc(r0, Run(m1, t1));
    ApplyRunsSnoc([], Run(Tag, t0));
    assert [] + [Run(Tag, t0)] == r0;
  }

  /** A tag run followed by two separator-introduced runs is well formed. */
  lemma ThreeRunsWellFormed(t0: string, m1: Mode, t1: string, m2: Mode, t2: string)
    requires NoSeparator(t0) && NoSeparator(t1) && NoSeparator(t2)
    requires m1 != Tag && m2 != Tag
    ensures WellFormedRuns([Run(Tag, t0)] + [Run(m1, t1)] + [Run(m2, t2)])
  {
    var rs := [Run(Tag, t0)] + [Run(m1, t1)] + [Run(m2, t2)];
    assert rs[0].text == t0 && rs[1].text == t1 && rs[2].text == t2;
  }

  /** Flushing one more run. */
  lemma ApplyRunsSnoc(pre: seq<Run>, r: Run)
    ensures ApplyRuns(Universal, pre + [r]) == Flush(ApplyRuns(Universal, pre), r.mode, r.text)
  {
    assert (pre + [r])[..|pre|] == pre;
  }
}
