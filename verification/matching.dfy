/** Matching one node against a selector (`Selector.match_node`) and against
  * a comma-separated selector list (`Selectors.from_str`,
  * `Selectors.match_node`). */
module Matching {
  import opened Text
  import opened SelectorParsing

  /** A node of the caller's tree: only its tag, its attributes and its
    * ordered children are read. */
  datatype Node = Node(tag: string, attributes: map<string, string>, children: seq<Node>)

  datatype Option<T> = None | Some(value: T)

  /** `attributes.get(key)` */
  function Get(attributes: map<string, string>, key: string): (r: Option<string>)
    ensures r.Some? <==> key in attributes
    ensures r.Some? ==> r.value == attributes[key]
  {
    if key in attributes then Some(attributes[key]) else None
  }

  /** The class tokens of a `class` attribute value: its pieces between
    * single spaces, each stripped of whitespace, empty ones dropped. An
    * empty value has no tokens; every token is non-empty, has no space and
    * neither starts nor ends with whitespace. */
  function ClassTokensOf(value: string): (r: set<string>)
    ensures value == [] ==> r == {}
    ensures forall t :: t in r ==> t != [] && ' ' !in t && !IsSpace(t[0]) && !IsSpace(t[|t| - 1])
  {
    var pieces := Split(value, ' ');
    assert value == [] ==> pieces == [[]] && Strip(pieces[0]) == [];
    forall t | t in TokensOfPieces(pieces)
      ensures t != [] && ' ' !in t && !IsSpace(t[0]) && !IsSpace(t[|t| - 1])
    {
      var i :| 0 <= i < |pieces| && Strip(pieces[i]) != [] && Strip(pieces[i]) == t;
      StripKeepsOut(pieces[i], ' ');
    }
    TokensOfPieces(pieces)
  }

  /** The stripped pieces that are not empty, as a set. */
  function TokensOfPieces(pieces: seq<string>): set<string>
  {
    set i | 0 <= i < |pieces| && Strip(pieces[i]) != [] :: Strip(pieces[i])
  }

  /** The class tokens of a node; a node without a `class` attribute has none. */
  function ClassTokens(node: Node): (r: set<string>)
    ensures "class" !in node.attributes ==> r == {}
  {
    ClassTokensOf(if "class" in node.attributes then node.attributes["class"] else "")
  }

  /** `Selector.match_node`: the tag, id and class checks joined by AND. */
  function MatchSelector(sel: SelectorValue, node: Node): (r: bool)
    ensures r <==>
      (sel.tag == [] || sel.tag == node.tag) &&
      (sel.id == [] || ("id" in node.attributes && node.attributes["id"] == sel.id)) &&
      sel.klass <= ClassTokens(node)
  {
    var matchedTag := !(sel.tag != [] && sel.tag != node.tag);
    var matchedId := !(sel.id != [] && Some(sel.id) != Get(node.attributes, "id"));
    var matchedClass := !(|sel.klass| != 0 && !(sel.klass <= ClassTokens(node)));
    matchedTag && matchedId && matchedClass
  }

  /** A selector with no constraint matches every node. */
  lemma UniversalMatchesAll(node: Node)
    ensures MatchSelector(Universal, node)
  {
  }

  /** A class value written as words separated by single spaces (empty words
    * standing for runs of extra spaces) has exactly the non-empty words as
    * its tokens. */
  lemma ClassTokensOfJoin(words: seq<string>)
    requires |words| >= 1
    requires forall i :: 0 <= i < |words| ==> ' ' !in words[i]
    requires forall i :: 0 <= i < |words| ==>
      (words[i] == [] || (!IsSpace(words[i][0]) && !IsSpace(words[i][|words[i]| - 1])))
    ensures ClassTokensOf(Join(words, ' ')) == NonEmpty(words)
  {
    SplitJoin(words, ' ');
    TokensOfUnpadded(words);
  }

  lemma TokensOfUnpadded(words: seq<string>)
    requires forall i :: 0 <= i < |words| ==>
      (words[i] == [] || (!IsSpace(words[i][0]) && !IsSpace(words[i][|words[i]| - 1])))
    ensures TokensOfPieces(words) == NonEmpty(words)
  {
    forall i | 0 <= i < |words| ensures Strip(words[i]) == words[i] {
      StripUnpadded(words[i]);
    }
  }

  /** The non-empty strings of a list, as a set. */
  function NonEmpty(words: seq<string>): set<string>
  {
    set i | 0 <= i < |words| && words[i] != [] :: words[i]
  }

  /** A tab is not a separator: `class="a\tb"` is the single token `a\tb`. */
  lemma ClassTokensTabIsNotSeparator()
    ensures ClassTokensOf("a\tb") == {"a\tb"}
  {
    var v := "a\tb";
    assert v == ['a', '\t', 'b'];
    assert Join([v], ' ') == v;
    ClassTokensOfJoin([v]);
    assert NonEmpty([v]) == {v};
  }

  // ---------------------------------------------------------------------
  // Selector lists

  /** `Selectors.from_str`: one selector per comma-separated piece, parsed
    * from the stripped piece, in input order. */
  function SelectorsFromStr(s: string): (r: seq<SelectorValue>)
    ensures |r| == Count(s, ',') + 1
  {
    ParseEach(Split(s, ','))
  }

  /** The list comprehension of `Selectors.from_str` over given pieces. */
  function ParseEach(pieces: seq<string>): (r: seq<SelectorValue>)
    ensures |r| == |pieces|
  {
    seq(|pieces|, i requires 0 <= i < |pieces| => Parse(Strip(pieces[i])))
  }

  /** `Selectors.match_node`: true when any member matches. */
  function MatchesAny(sels: seq<SelectorValue>, node: Node): (r: bool)
    ensures r <==> exists i :: 0 <= i < |sels| && MatchSelector(sels[i], node)
  {
    if sels == [] then false
    else MatchSelector(sels[0], node) || MatchesAny(sels[1..], node)
  }

  /** A comma splits the list in two independent halves. */
  lemma SelectorsAppend(a: string, b: string)
    ensures SelectorsFromStr(a + [','] + b) == SelectorsFromStr(a) + SelectorsFromStr(b)
  {
    SplitAppend(a, b, ',');
    ParseEachAppend(Split(a, ','), Split(b, ','));
  }

  lemma ParseEachAppend(pa: seq<string>, pb: seq<string>)
    ensures ParseEach(pa + pb) == ParseEach(pa) + ParseEach(pb)
  {
    var l, ra, rb := ParseEach(pa + pb), ParseEach(pa), ParseEach(pb);
    forall i | 0 <= i < |l| ensures l[i] == (ra + rb)[i] {
      if i < |pa| {
        assert (pa + pb)[i] == pa[i];
      } else {
        assert (pa + pb)[i] == pb[i - |pa|];
      }
    }
  }

  /** An empty or blank piece yields the universal selector. */
  lemma BlankPieceIsUniversal(s: string, i: nat)
    requires i < |Split(s, ',')| && AllSpace(Split(s, ',')[i])
    ensures SelectorsFromStr(s)[i] == Universal
  {
    StripAllSpace(Split(s, ',')[i]);
    ParseNoSeparator([]);
  }

  /** The empty string is a list of one match-all selector. */
  lemma EmptySelectorList()
    ensures SelectorsFromStr([]) == [Universal]
  {
    assert Split([], ',') == [[]];
    BlankPieceIsUniversal([], 0);
  }

  /** A trailing comma appends a match-all selector. */
  lemma TrailingComma(s: string)
    ensures SelectorsFromStr(s + [',']) == SelectorsFromStr(s) + [Universal]
  {
    SelectorsAppend(s, []);
    assert s + [','] + [] == s + [','];
    EmptySelectorList();
  }

  /** Matching a concatenated list is the OR of matching either part. */
  lemma MatchesAnyAppend(a: seq<SelectorValue>, b: seq<SelectorValue>, node: Node)
    ensures MatchesAny(a + b, node) <==> MatchesAny(a, node) || MatchesAny(b, node)
  {
    if MatchesAny(a + b, node) {
      var i :| 0 <= i < |a + b| && MatchSelector((a + b)[i], node);
      if i >= |a| { assert b[i - |a|] == (a + b)[i]; }
    }
    if MatchesAny(a, node) {
      var i :| 0 <= i < |a| && MatchSelector(a[i], node);
      assert (a + b)[i] == a[i];
    }
    if MatchesAny(b, node) {
      var i :| 0 <= i < |b| && MatchSelector(b[i], node);
      assert (a + b)[|a| + i] == b[i];
    }
  }
}
