/** The regular-expression matcher behind grep: literals, `.`, `*`, a leading `^` and a trailing `$`. */
module Grep {

  /** The parts of a pattern. A `$` is an anchor only at the very end, a `*` only after another character. */
  datatype Part = One(c: char) | Star(c: char) | End

  function Parse(re: string): seq<Part> {
    if re == [] then []
    else if |re| >= 2 && re[1] == '*' then [Star(re[0])] + Parse(re[2..])
    else if re == "$" then [End]
    else [One(re[0])] + Parse(re[1..])
  }

  predicate Fits(c: char, x: char) {
    c == '.' || c == x
  }

  /** The strings a part stands for. */
  predicate Stands(part: Part, s: string) {
    match part
    case One(c) => |s| == 1 && Fits(c, s[0])
    case Star(c) => forall i :: 0 <= i < |s| ==> Fits(c, s[i])
    case End => s == []
  }

  function Joined(pieces: seq<string>): string {
    if pieces == [] then [] else pieces[0] + Joined(pieces[1..])
  }

  predicate Anchored(parts: seq<Part>) {
    parts != [] && parts[|parts| - 1].End?
  }

  /** The text starts with one piece per part, in order, and ends there if the pattern is anchored. */
  ghost predicate Splits(parts: seq<Part>, text: string, pieces: seq<string>) {
    && |pieces| == |parts|
    && (forall i :: 0 <= i < |parts| ==> Stands(parts[i], pieces[i]))
    && Joined(pieces) <= text
    && (Anchored(parts) ==> Joined(pieces) == text)
  }

  ghost predicate MatchesHere(parts: seq<Part>, text: string) {
    exists pieces :: Splits(parts, text, pieces)
  }

  /** What it means for a pattern to match a text: somewhere, or at the start after a `^`. */
  ghost predicate Matches(re: string, text: string) {
    if re != [] && re[0] == '^' then MatchesHere(Parse(re[1..]), text)
    else exists i :: 0 <= i <= |text| && MatchesHere(Parse(re), text[i..])
  }

  // ---------------------------------------------------------------- taking one part off

  lemma Tail(part: Part, parts: seq<Part>, text: string, pieces: seq<string>)
    requires Splits([part] + parts, text, pieces)
    ensures pieces != [] && |pieces[0]| <= |text| && text[..|pieces[0]|] == pieces[0]
    ensures Splits(parts, text[|pieces[0]|..], pieces[1..]) && Stands(part, pieces[0])
    ensures parts == [] && part.End? ==> text == []
  {
    var all := [part] + parts;
    forall i | 0 <= i < |parts| ensures Stands(parts[i], pieces[1..][i]) {
      assert Stands(all[i + 1], pieces[i + 1]);
    }
    assert Stands(all[0], pieces[0]);
    assert Anchored(parts) ==> Anchored(all);
    if parts == [] {
      assert Joined(pieces[1..]) == [];
    }
  }

  lemma Cons(part: Part, parts: seq<Part>, text: string, piece: string, pieces: seq<string>)
    requires Stands(part, piece) && piece <= text && Splits(parts, text[|piece|..], pieces)
    requires parts == [] && part.End? ==> text == []
    ensures Splits([part] + parts, text, [piece] + pieces)
  {
    var all, joint := [part] + parts, [piece] + pieces;
    assert joint[1..] == pieces;
    assert text == piece + text[|piece|..];
    forall i | 0 <= i < |all| ensures Stands(all[i], joint[i]) {
      if i > 0 {
        assert all[i] == parts[i - 1] && joint[i] == pieces[i - 1];
      }
    }
    if Anchored(all) && parts != [] {
      assert Anchored(parts);
    }
  }

  lemma HereOne(c: char, parts: seq<Part>, text: string)
    ensures MatchesHere([One(c)] + parts, text)
       <==> text != [] && Fits(c, text[0]) && MatchesHere(parts, text[1..])
  {
    if MatchesHere([One(c)] + parts, text) {
      var pieces :| Splits([One(c)] + parts, text, pieces);
      Tail(One(c), parts, text, pieces);
    }
    if text != [] && Fits(c, text[0]) && MatchesHere(parts, text[1..]) {
      var pieces :| Splits(parts, text[1..], pieces);
      Cons(One(c), parts, text, text[..1], pieces);
    }
  }

  /** `k` characters can go to the star, and the rest of the pattern follows. */
  ghost predicate StarSplit(c: char, parts: seq<Part>, text: string, k: nat) {
    k <= |text| && (forall i :: 0 <= i < k ==> Fits(c, text[i])) && MatchesHere(parts, text[k..])
  }

  ghost predicate StarHere(c: char, parts: seq<Part>, text: string) {
    exists k: nat :: StarSplit(c, parts, text, k)
  }

  lemma HereStar(c: char, parts: seq<Part>, text: string)
    ensures MatchesHere([Star(c)] + parts, text) <==> StarHere(c, parts, text)
  {
    if MatchesHere([Star(c)] + parts, text) {
      var pieces :| Splits([Star(c)] + parts, text, pieces);
      Tail(Star(c), parts, text, pieces);
      assert StarSplit(c, parts, text, |pieces[0]|);
    }
    if k: nat :| StarSplit(c, parts, text, k) {
      var pieces :| Splits(parts, text[k..], pieces);
      Cons(Star(c), parts, text, text[..k], pieces);
    }
  }

  lemma HereEnds(text: string)
    ensures MatchesHere([], text)
    ensures MatchesHere([End], text) <==> text == []
  {
    assert Splits([], text, []);
    if MatchesHere([End], text) {
      var pieces :| Splits([End], text, pieces);
      assert [End] + [] == [End];
      Tail(End, [], text, pieces);
    }
    if text == [] {
      assert Splits([End], text, [[]]);
    }
  }

  // ---------------------------------------------------------------- the matcher

  /** Does the pattern match at the start of the text? */
  method MatchHere(re: string, text: string) returns (r: bool)
    ensures r <==> MatchesHere(Parse(re), text)
    decreases |re|, 0
  {
    HereEnds(text);
    if re == [] {
      return true;
    }
    if |re| >= 2 && re[1] == '*' {
      assert Parse(re) == [Star(re[0])] + Parse(re[2..]);
      HereStar(re[0], Parse(re[2..]), text);
      r := MatchStar(re[0], re[2..], text);
      return;
    }
    if re == "$" {
      return text == [];
    }
    HereOne(re[0], Parse(re[1..]), text);
    if text != [] && (re[0] == '.' || re[0] == text[0]) {
      r := MatchHere(re[1..], text[1..]);
      return;
    }
    return false;
  }

  /** Does `c*` followed by the pattern match at the start of the text? */
  method MatchStar(c: char, re: string, text: string) returns (r: bool)
    ensures r <==> StarHere(c, Parse(re), text)
    decreases |re|, 1
  {
    var i := 0;
    while true
      invariant 0 <= i <= |text|
      invariant forall k :: 0 <= k < i ==> Fits(c, text[k])
      invariant forall k: nat :: k < i ==> !MatchesHere(Parse(re), text[k..])
      decreases |text| - i
    {
      var here := MatchHere(re, text[i..]);
      if here {
        assert StarSplit(c, Parse(re), text, i);
        return true;
      }
      if i == |text| || !(text[i] == c || c == '.') {
        return false;
      }
      i := i + 1;
    }
  }

  /** Does the pattern match anywhere in the text? */
  method Match(re: string, text: string) returns (r: bool)
    ensures r <==> Matches(re, text)
  {
    if re != [] && re[0] == '^' {
      r := MatchHere(re[1..], text);
      return;
    }
    var i := 0;
    while true
      invariant 0 <= i <= |text|
      invariant forall k :: 0 <= k < i ==> !MatchesHere(Parse(re), text[k..])
      decreases |text| - i
    {
      var here := MatchHere(re, text[i..]);   // must look even at the empty rest
      if here {
        return true;
      }
      if i == |text| {
        return false;
      }
      i := i + 1;
    }
  }
}
