/** The regular-expression matcher of grep (grep.c), proved equal to a
    declarative meaning of `^ . * $`: a way of cutting the text into one
    segment per pattern item. */
module Grep {

  /** A C string: the characters before the terminating NUL. */
  type CString = s: string | '\0' !in s witness ""

  /** The character a C pointer sees; the NUL terminator ends the string. */
  function CharAt(s: CString, i: nat): char {
    if i < |s| then s[i] else '\0'
  }

  datatype Item = One(c: char) | Star(c: char) | AtEnd

  /** How a pattern reads as a list of items.  `x*` binds whatever character x
      is; `$` is an anchor only as the very last character. */
  function Items(re: CString): seq<Item> {
    if re == "" then []
    else if |re| > 1 && re[1] == '*' then [Star(re[0])] + Items(re[2..])
    else if re == "$" then [AtEnd]
    else [One(re[0])] + Items(re[1..])
  }

  /* Writing items down as a pattern. */

  function Text(item: Item): string {
    match item
    case One(c) => [c]
    case Star(c) => [c, '*']
    case AtEnd => "$"
  }

  /** The items have characters to match, and each is read as itself in its place:
      an anchor is last, the last character is not taken for one, and no
      character is followed by what looks like its star. */
  predicate Readable(items: seq<Item>) {
    && (forall i :: 0 <= i < |items| ==> '\0' !in Text(items[i]))
    && (forall i :: 0 <= i < |items| - 1 ==>
          items[i] != AtEnd && (items[i].One? ==> Text(items[i + 1])[0] != '*'))
    && (|items| > 0 ==> items[|items| - 1] != One('$'))
  }

  function Written(items: seq<Item>): (re: CString)
    requires forall i :: 0 <= i < |items| ==> '\0' !in Text(items[i])
  {
    if items == [] then "" else Text(items[0]) + Written(items[1..])
  }

  /** A pattern is read as what was written, the final anchor included. */
  lemma {:induction false} ReadWritten(items: seq<Item>)
    requires Readable(items)
    ensures Items(Written(items)) == items
  {
    if items != [] {
      var rest, re := items[1..], Written(items);
      ReadWritten(rest);
      assert re == Text(items[0]) + Written(rest) && items == [items[0]] + rest;
      assert rest != [] ==> Written(rest)[0] == Text(rest[0])[0] && rest[0] == items[1];
      match items[0] {
        case One(c) => assert re[1..] == Written(rest);
        case Star(c) => assert re[2..] == Written(rest);
        case AtEnd => assert rest == [];
      }
    }
  }

  lemma ReadableCons(item: Item, rest: seq<Item>)
    requires Readable(rest) && '\0' !in Text(item)
    requires if rest == [] then item != One('$') else item != AtEnd && (item.One? ==> Text(rest[0])[0] != '*')
    ensures Readable([item] + rest) && Written([item] + rest) == Text(item) + Written(rest)
  {
    var items := [item] + rest;
    forall i | 0 <= i < |items| ensures '\0' !in Text(items[i]) {
      if i > 0 {
        assert items[i] == rest[i - 1];
      }
    }
    forall i | 0 <= i < |items| - 1
      ensures items[i] != AtEnd && (items[i].One? ==> Text(items[i + 1])[0] != '*')
    {
      if i > 0 {
        assert items[i] == rest[i - 1] && items[i + 1] == rest[i];
      }
    }
    assert items[1..] == rest;
  }

  lemma FirstWritten(items: seq<Item>)
    requires Readable(items)
    ensures if items == [] then Written(items) == "" else Written(items) != "" && Written(items)[0] == Text(items[0])[0]
  {
  }

  lemma OneRead(c: char, re: CString, items: seq<Item>)
    requires c != '\0' && Readable(items) && Written(items) == re
    requires [c] + re != "$" && (re != "" ==> re[0] != '*')
    ensures Readable([One(c)] + items) && Written([One(c)] + items) == [c] + re
  {
    FirstWritten(items);
    assert items == [] ==> [c] + re == [c];
    ReadableCons(One(c), items);
  }

  lemma StarRead(c: char, re: CString, items: seq<Item>)
    requires c != '\0' && Readable(items) && Written(items) == re
    ensures Readable([Star(c)] + items) && Written([Star(c)] + items) == [c, '*'] + re
  {
    ReadableCons(Star(c), items);
  }

  /** And every pattern is such a text. */
  lemma {:induction false} WrittenRead(re: CString)
    ensures Readable(Items(re)) && Written(Items(re)) == re
  {
    if re == "" {
    } else if |re| > 1 && re[1] == '*' {
      WrittenRead(re[2..]);
      StarRead(re[0], re[2..], Items(re[2..]));
      assert re == [re[0], '*'] + re[2..];
    } else if re == "$" {
      ReadableCons(AtEnd, []);
      assert [AtEnd] + [] == [AtEnd];
    } else {
      WrittenRead(re[1..]);
      assert re == [re[0]] + re[1..];
      OneRead(re[0], re[1..], Items(re[1..]));
    }
  }

  predicate Accepts(c: char, x: char) {
    c == '.' || c == x
  }

  /** The item describes the segment text[lo..hi]. */
  predicate Segment(item: Item, text: CString, lo: nat, hi: nat) {
    lo <= hi <= |text| &&
    match item
    case One(c) => hi == lo + 1 && Accepts(c, text[lo])
    case Star(c) => forall k :: lo <= k < hi ==> Accepts(c, text[k])
    case AtEnd => lo == hi == |text|
  }

  /** cuts[i]..cuts[i+1] is the segment of the i-th item. */
  ghost predicate Cutting(items: seq<Item>, text: CString, cuts: seq<nat>) {
    |cuts| == |items| + 1 &&
    forall i :: 0 <= i < |items| ==> Segment(items[i], text, cuts[i], cuts[i + 1])
  }

  /** The items describe some piece of the text that starts at pos. */
  ghost predicate MatchesAt(items: seq<Item>, text: CString, pos: nat) {
    exists cuts :: Cutting(items, text, cuts) && cuts[0] == pos
  }

  /** The meaning of a whole pattern. */
  ghost predicate Matches(re: CString, text: CString) {
    if re != "" && re[0] == '^' then MatchesAt(Items(re[1..]), text, 0)
    else exists pos :: 0 <= pos <= |text| && MatchesAt(Items(re), text, pos)
  }

  lemma MatchesNothing(text: CString, pos: nat)
    ensures MatchesAt([], text, pos)
  {
    assert Cutting([], text, [pos]);
  }

  /** A cutting is a first segment and a cutting of the rest. */
  lemma MatchesCons(item: Item, rest: seq<Item>, text: CString, pos: nat)
    ensures MatchesAt([item] + rest, text, pos) <==>
            exists mid :: pos <= mid <= |text| && Segment(item, text, pos, mid) && MatchesAt(rest, text, mid)
  {
    var items := [item] + rest;
    if MatchesAt(items, text, pos) {
      var cuts :| Cutting(items, text, cuts) && cuts[0] == pos;
      assert Segment(items[0], text, cuts[0], cuts[1]);
      assert Cutting(rest, text, cuts[1..]) by {
        forall i | 0 <= i < |rest| ensures Segment(rest[i], text, cuts[1..][i], cuts[1..][i + 1]) {
          assert Segment(items[i + 1], text, cuts[i + 1], cuts[i + 2]);
        }
      }
    }
    if mid :| pos <= mid <= |text| && Segment(item, text, pos, mid) && MatchesAt(rest, text, mid) {
      var cuts :| Cutting(rest, text, cuts) && cuts[0] == mid;
      var all := [pos] + cuts;
      assert Cutting(items, text, all) by {
        forall i | 0 <= i < |items| ensures Segment(items[i], text, all[i], all[i + 1]) {
          if i > 0 {
            assert items[i] == rest[i - 1] && all[i] == cuts[i - 1] && all[i + 1] == cuts[i];
          }
        }
      }
    }
  }

  /* What some patterns mean, told without items. */

  function Ones(w: string): seq<Item> {
    seq(|w|, i requires 0 <= i < |w| => One(w[i]))
  }

  /** Characters that stand for themselves. */
  predicate Plain(w: string) {
    forall i :: 0 <= i < |w| ==> w[i] !in {'.', '*', '\0'}
  }

  lemma {:induction false} ItemsPlain(w: CString, anchored: bool)
    requires Plain(w) && (!anchored && |w| > 0 ==> w[|w| - 1] != '$')
    ensures Items(w + if anchored then "$" else "") == Ones(w) + if anchored then [AtEnd] else []
  {
    var re: CString := w + if anchored then "$" else "";
    if w != "" {
      ItemsPlain(w[1..], anchored);
      assert re[1..] == w[1..] + if anchored then "$" else "";
      assert Ones(w) == [One(w[0])] + Ones(w[1..]);
      assert |re| > 1 ==> re[1] != '*';
    }
  }

  predicate StandsAt(w: string, text: string, pos: nat) {
    pos + |w| <= |text| && text[pos..pos + |w|] == w
  }

  lemma {:induction false} PlainAt(w: string, tail: seq<Item>, text: CString, pos: nat)
    requires Plain(w) && pos <= |text|
    ensures MatchesAt(Ones(w) + tail, text, pos) <==>
            StandsAt(w, text, pos) && MatchesAt(tail, text, pos + |w|)
    decreases |w|
  {
    if w == "" {
      assert Ones(w) + tail == tail;
    } else {
      var rest := Ones(w[1..]) + tail;
      assert Ones(w) + tail == [One(w[0])] + rest;
      MatchesCons(One(w[0]), rest, text, pos);
      if pos < |text| {
        PlainAt(w[1..], tail, text, pos + 1);
        assert MatchesAt(Ones(w) + tail, text, pos) <==> w[0] == text[pos] && MatchesAt(rest, text, pos + 1) by {
          assert forall mid :: Segment(One(w[0]), text, pos, mid) ==> mid == pos + 1;
        }
        assert pos + |w| <= |text| ==> text[pos..pos + |w|] == [text[pos]] + text[pos + 1..pos + |w|];
        assert w == [w[0]] + w[1..];
      }
    }
  }

  lemma EndAt(text: CString, pos: nat)
    ensures MatchesAt([AtEnd], text, pos) <==> pos == |text|
  {
    MatchesCons(AtEnd, [], text, pos);
    MatchesNothing(text, |text|);
    assert [AtEnd] == [AtEnd] + [];
  }

  /** "w$" matches exactly the texts that end in w. */
  lemma Suffix(w: CString, text: CString)
    requires Plain(w) && (w != "" ==> w[0] != '^')
    ensures Matches(w + "$", text) <==> |w| <= |text| && text[|text| - |w|..] == w
  {
    ItemsPlain(w, true);
    forall pos | 0 <= pos <= |text|
      ensures MatchesAt(Ones(w) + [AtEnd], text, pos) <==> pos == |text| - |w| && text[pos..] == w
    {
      PlainAt(w, [AtEnd], text, pos);
      EndAt(text, pos + |w|);
    }
  }

  /** "^w$" matches w alone. */
  lemma Exact(w: CString, text: CString)
    requires Plain(w)
    ensures Matches("^" + w + "$", text) <==> text == w
  {
    var re := "^" + w + "$";
    assert re[1..] == w + "$";
    ItemsPlain(w, true);
    PlainAt(w, [AtEnd], text, 0);
    EndAt(text, |w|);
  }

  /** "w" matches the texts that have w in them, and "^w" those that start with
      it. */
  lemma Inside(w: CString, text: CString)
    requires Plain(w) && (w != "" ==> w[0] != '^' && w[|w| - 1] != '$')
    ensures Matches(w, text) <==> exists pos: nat :: StandsAt(w, text, pos)
    ensures Matches("^" + w, text) <==> w <= text
  {
    ItemsPlain(w, false);
    assert w + "" == w && Ones(w) + [] == Ones(w) && ("^" + w)[1..] == w;
    forall pos | 0 <= pos <= |text|
      ensures MatchesAt(Ones(w), text, pos) <==> StandsAt(w, text, pos)
    {
      PlainAt(w, [], text, pos);
      MatchesNothing(text, pos + |w|);
    }
  }

  /** "^c*$" matches the texts of c alone, and "^.*$" all texts. */
  lemma StarAll(c: char, text: CString)
    requires c != '\0'
    ensures Matches(['^', c, '*', '$'], text) <==> c == '.' || forall k :: 0 <= k < |text| ==> text[k] == c
  {
    var re: CString := ['^', c, '*', '$'];
    assert re[1..][2..] == "$";
    assert Items(re[1..]) == [Star(c)] + [AtEnd];
    MatchesCons(Star(c), [AtEnd], text, 0);
    forall mid: nat ensures MatchesAt([AtEnd], text, mid) <==> mid == |text| {
      EndAt(text, mid);
    }
    assert Segment(Star(c), text, 0, |text|) <==> c == '.' || forall k :: 0 <= k < |text| ==> text[k] == c;
  }

  /** "." matches any one character. */
  lemma DotAny(text: CString)
    ensures Matches("^.$", text) <==> |text| == 1
  {
    assert "^.$"[1..] == ".$" && ".$"[1..] == "$";
    assert Items(".$") == [One('.')] + [AtEnd];
    MatchesCons(One('.'), [AtEnd], text, 0);
    EndAt(text, 1);
    assert forall mid :: Segment(One('.'), text, 0, mid) ==> mid == 1;
  }

  /** match (grep.c:71-81): the do-while loop tries every suffix, the empty one
      included. */
  method Match(re: CString, text: CString) returns (found: bool)
    ensures found <==> Matches(re, text)
  {
    if CharAt(re, 0) == '^' {
      found := MatchHere(re[1..], text, 0);
      return;
    }
    var pos := 0;
    while true
      invariant pos <= |text|
      invariant forall p :: 0 <= p < pos ==> !MatchesAt(Items(re), text, p)
      decreases |text| - pos
    {
      var here := MatchHere(re, text, pos);
      if here {
        return true;
      }
      if CharAt(text, pos) == '\0' {
        break;
      }
      pos := pos + 1;
    }
    return false;
  }

  /** matchhere (grep.c:84-95). */
  method MatchHere(re: CString, text: CString, pos: nat) returns (found: bool)
    requires pos <= |text|
    ensures found <==> MatchesAt(Items(re), text, pos)
    decreases |re|, 1, |text| - pos
  {
    if CharAt(re, 0) == '\0' {
      MatchesNothing(text, pos);
      return true;
    }
    if CharAt(re, 1) == '*' {
      found := MatchStar(re[0], re[2..], text, pos);
      return;
    }
    if re[0] == '$' && CharAt(re, 1) == '\0' {
      assert Items(re) == [AtEnd] + [];
      MatchesCons(AtEnd, [], text, pos);
      MatchesNothing(text, |text|);
      return CharAt(text, pos) == '\0';
    }
    MatchesCons(One(re[0]), Items(re[1..]), text, pos);
    if CharAt(text, pos) != '\0' && (re[0] == '.' || re[0] == CharAt(text, pos)) {
      found := MatchHere(re[1..], text, pos + 1);
      return;
    }
    return false;
  }

  /** matchstar (grep.c:98-105). */
  method MatchStar(c: char, re: CString, text: CString, start: nat) returns (found: bool)
    requires start <= |text|
    ensures found <==> MatchesAt([Star(c)] + Items(re), text, start)
    decreases |re| + 1, 0, |text| - start
  {
    MatchesCons(Star(c), Items(re), text, start);
    var pos := start;
    while true
      invariant start <= pos <= |text|
      invariant Segment(Star(c), text, start, pos)
      invariant forall p :: start <= p < pos ==> !MatchesAt(Items(re), text, p)
      decreases |text| - pos
    {
      var here := MatchHere(re, text, pos);
      if here {
        return true;
      }
      if !(CharAt(text, pos) != '\0' && (CharAt(text, pos) == c || c == '.')) {
        break;
      }
      pos := pos + 1;
    }
    assert forall mid :: pos < mid <= |text| ==> !Segment(Star(c), text, start, mid);
    return false;
  }
}
