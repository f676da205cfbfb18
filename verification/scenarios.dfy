/** Concrete selectors and trees: the cases the selector table in the
  * `Selector` docstring lists, worked through the model. */
module Scenarios {
  import opened Text
  import opened SelectorParsing
  import opened Matching
  import opened Traversal

  /** A plain name as the docstring's examples use them (`div`, `topDiv`,
    * `container`): non-empty, no whitespace, no `.`, `#` or `,`. */
  predicate Name(t: string)
  {
    t != [] && forall k :: 0 <= k < |t| ==> !IsSpace(t[k]) && t[k] !in ".#,"
  }

  lemma NameFacts(t: string)
    requires Name(t)
    ensures NoSeparator(t) && ',' !in t && ' ' !in t
    ensures !IsSpace(t[0]) && !IsSpace(t[|t| - 1])
  {
    forall c | c in t ensures c != '.' && c != '#' && c != ',' && c != ' ' {
      var k :| 0 <= k < |t| && t[k] == c;
      assert IsSpace(' ');
    }
  }

  /** `tag.class#id` and `tag#id.class` select the same nodes (as
    * `div.container#topDiv` and `div#topDiv.container` do). */
  lemma OrderIndependence(tag: string, klass: string, id: string)
    requires Name(tag) && Name(klass) && Name(id)
    ensures Parse(tag + "." + klass + "#" + id) == Parse(tag + "#" + id + "." + klass)
    ensures Parse(tag + "." + klass + "#" + id) == SelectorValue(id, {klass}, tag)
  {
    NameFacts(tag);
    NameFacts(klass);
    NameFacts(id);
    ParseThreeRuns(tag, Class, klass, Id, id);
    ParseThreeRuns(tag, Id, id, Class, klass);
  }

  /** `.a.b` requires both classes and nothing else. */
  lemma ClassesAccumulate(a: string, b: string)
    requires Name(a) && Name(b)
    ensures Parse("." + a + "." + b) == SelectorValue("", {a, b}, "")
  {
    NameFacts(a);
    NameFacts(b);
    ParseThreeRuns("", Class, a, Class, b);
    assert "" + ['.'] + a == "." + a;
  }

  /** With two `#` runs the later id wins. */
  lemma LastIdWins(a: string, b: string)
    requires Name(a) && Name(b)
    ensures Parse("#" + a + "#" + b) == SelectorValue(b, {}, "")
  {
    NameFacts(a);
    NameFacts(b);
    ParseThreeRuns("", Id, a, Id, b);
    assert "" + ['#'] + a == "#" + a;
  }

  /** Trailing and doubled dots add no empty class: `div`, `div.` and `div..`
    * all select the tag alone. */
  lemma TrailingDots(tag: string)
    requires Name(tag)
    ensures Parse(tag) == SelectorValue("", {}, tag)
    ensures Parse(tag + ".") == Parse(tag) && Parse(tag + "..") == Parse(tag)
  {
    NameFacts(tag);
    ParseNoSeparator(tag);
    ParseTrailingSeparator(tag, '.');
    ParseTrailingSeparator(tag + ".", '.');
    assert tag + "." + "." == tag + "..";
  }

  /** `.a.b` matches a node whose class attribute is `a b c`. */
  lemma ClassSelectorMatchesSuperset(a: string, b: string, c: string, node: Node)
    requires Name(a) && Name(b) && Name(c)
    ensures MatchSelector(Parse("." + a + "." + b), node.(attributes := map["class" := a + " " + b + " " + c]))
  {
    ClassesAccumulate(a, b);
    JoinThree(a, b, c);
    var words := [a, b, c];
    ClassTokensOfWords(words);
    assert words[0] == a && words[1] == b;
  }

  lemma JoinThree(a: string, b: string, c: string)
    ensures Join([a, b, c], ' ') == a + " " + b + " " + c
  {
    JoinAppend([a], [b, c], ' ');
    JoinAppend([b], [c], ' ');
  }

  /** `.a.b` matches a node whose class attribute is `a   b`: extra spaces
    * between class names are tolerated. */
  lemma ClassSelectorIgnoresExtraSpaces(a: string, b: string, node: Node)
    requires Name(a) && Name(b)
    ensures MatchSelector(Parse("." + a + "." + b), node.(attributes := map["class" := a + "   " + b]))
  {
    ClassesAccumulate(a, b);
    JoinPadded(a, b);
    var words: seq<string> := [a, [], [], b];
    ClassTokensOfWords(words);
    assert words[0] == a && words[3] == b;
  }

  lemma JoinPadded(a: string, b: string)
    ensures Join([a, [], [], b], ' ') == a + "   " + b
  {
    JoinAppend([a], [[], [], b], ' ');
    JoinAppend([[]], [[], b], ' ');
    JoinAppend([[]], [b], ' ');
    assert [a] + [[], [], b] == [a, [], [], b];
  }

  /** `.a.b` does not match a node whose class attribute is `a` alone. */
  lemma ClassSelectorNeedsEveryClass(a: string, b: string, node: Node)
    requires Name(a) && Name(b) && a != b
    ensures !MatchSelector(Parse("." + a + "." + b), node.(attributes := map["class" := a]))
  {
    ClassesAccumulate(a, b);
    ClassTokensOfWords([a]);
    assert NonEmpty([a]) == {a};
  }

  /** The tokens of words joined by spaces are the non-empty words. */
  lemma ClassTokensOfWords(words: seq<string>)
    requires |words| >= 1
    requires forall i :: 0 <= i < |words| ==> words[i] == [] || Name(words[i])
    ensures ClassTokensOf(Join(words, ' ')) == NonEmpty(words)
    ensures forall i :: 0 <= i < |words| && words[i] != [] ==> words[i] in ClassTokensOf(Join(words, ' '))
  {
    forall i | 0 <= i < |words| && words[i] != []
      ensures ' ' !in words[i] && !IsSpace(words[i][0]) && !IsSpace(words[i][|words[i]| - 1])
    {
      NameFacts(words[i]);
    }
    ClassTokensOfJoin(words);
  }

  // ---------------------------------------------------------------------
  // Selector lists and queries

  /** A single name is a list of one tag selector. */
  lemma SingleTagList(t: string)
    requires Name(t)
    ensures SelectorsFromStr(t) == [SelectorValue("", {}, t)]
  {
    NameFacts(t);
    SplitNoSeparator(t, ',');
    StripUnpadded(t);
    ParseNoSeparator(t);
  }

  /** A name after the space that follows a comma: the space is stripped. */
  lemma PaddedTagList(t: string)
    requires Name(t)
    ensures SelectorsFromStr(" " + t) == [SelectorValue("", {}, t)]
  {
    NameFacts(t);
    assert ',' !in " " + t;
    SplitNoSeparator(" " + t, ',');
    assert AllSpace(" ") by { assert IsSpace(' '); }
    StripLeadingSpaces(" ", t);
    ParseNoSeparator(t);
  }

  /** `t1, t2` (as in `div, p`) is the list of the two tag selectors. */
  lemma TwoTagList(t1: string, t2: string)
    requires Name(t1) && Name(t2)
    ensures SelectorsFromStr(t1 + ", " + t2) == [SelectorValue("", {}, t1), SelectorValue("", {}, t2)]
  {
    SelectorsAppend(t1, " " + t2);
    assert t1 + [','] + (" " + t2) == t1 + ", " + t2;
    SingleTagList(t1);
    PaddedTagList(t2);
  }

  /** `t1, t2` matches exactly the nodes tagged `t1` or `t2`. */
  lemma TwoTagListMatches(t1: string, t2: string, node: Node)
    requires Name(t1) && Name(t2)
    ensures MatchesAny(SelectorsFromStr(t1 + ", " + t2), node) <==> node.tag == t1 || node.tag == t2
  {
    TwoTagList(t1, t2);
    var sels := [SelectorValue("", {}, t1), SelectorValue("", {}, t2)];
    assert MatchSelector(sels[0], node) <==> node.tag == t1;
    assert MatchSelector(sels[1], node) <==> node.tag == t2;
  }

  /** The walk of a root with two leaf children. */
  lemma PreorderOfTwoLeaves(root: Node)
    requires |root.children| == 2 && root.children[0].children == [] && root.children[1].children == []
    ensures Preorder(root) == [root, root.children[0], root.children[1]]
    ensures root.children == [root.children[0], root.children[1]]
  {
    var cs := root.children;
    assert cs[..1] == [cs[0]] && [cs[0]][..0] == [];
    assert PreorderAll([]) == [];
    assert Preorder(cs[0]) == [cs[0]];
    assert Preorder(cs[1]) == [cs[1]];
    assert PreorderAll(cs) == PreorderAll(cs[..1]) + Preorder(cs[1]);
  }

  /** Results come in tree order, not selector order: for a root whose
    * children are a `t2` leaf then a `t1` leaf, `t1, t2` returns the two
    * children as they stand in the tree (as `span, p` returns the `p`
    * before the `span`). */
  lemma QueryFollowsTreeOrder(root: Node, t1: string, t2: string)
    requires Name(t1) && Name(t2)
    requires |root.children| == 2 && root.children[0].children == [] && root.children[1].children == []
    requires root.tag != t1 && root.tag != t2
    requires root.children[0].tag == t2 && root.children[1].tag == t1
    ensures Filter(Preorder(root), SelectorsFromStr(t1 + ", " + t2)) == root.children
  {
    TwoTagListMatches(t1, t2, root);
    TwoTagListMatches(t1, t2, root.children[0]);
    TwoTagListMatches(t1, t2, root.children[1]);
    QueryTwoLeaves(root, SelectorsFromStr(t1 + ", " + t2));
  }

  lemma QueryTwoLeaves(root: Node, sels: seq<SelectorValue>)
    requires |root.children| == 2 && root.children[0].children == [] && root.children[1].children == []
    requires !MatchesAny(sels, root) && MatchesAny(sels, root.children[0]) && MatchesAny(sels, root.children[1])
    ensures Filter(Preorder(root), sels) == root.children
  {
    var x, y := root.children[0], root.children[1];
    PreorderOfTwoLeaves(root);
    FilterOfThree(root, x, y, sels);
  }

  lemma FilterOfThree(a: Node, b: Node, c: Node, sels: seq<SelectorValue>)
    requires !MatchesAny(sels, a) && MatchesAny(sels, b) && MatchesAny(sels, c)
    ensures Filter([a, b, c], sels) == [b, c]
  {
    var ns := [a, b, c];
    assert ns[..2] == [a, b] && ns[..2][..1] == [a] && ns[..2][..1][..0] == [];
    assert Filter([a], sels) == [];
    assert Filter([a, b], sels) == [b];
  }
}
