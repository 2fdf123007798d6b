/**
 The regular expression matcher of grep.c (Kernighan and Pike, The Practice of Programming, chapter 9).

 A pattern is read as a sequence of items, possibly tied to the end of the text; the language of the
 items is given by concatenation of strings, with no reference to how the matcher searches.
 */
module Grep {

  /** One character, or any number of it; '.' stands for every character. */
  datatype Item = One(c: char) | Star(c: char)

  datatype Regex = Regex(items: seq<Item>, atEnd: bool)

  /** How a pattern without a leading '^' reads: '*' repeats what it follows, '$' is special only as the last character. */
  function Read(re: string): (r: Regex)
    decreases |re|
  {
    if re == [] then Regex([], false)
    else if |re| > 1 && re[1] == '*' then Prepend(Star(re[0]), Read(re[2..]))
    else if re == "$" then Regex([], true)
    else Prepend(One(re[0]), Read(re[1..]))
  }

  function Prepend(item: Item, r: Regex): Regex {
    Regex([item] + r.items, r.atEnd)
  }

  predicate Fits(c: char, x: char) {
    c == '.' || c == x
  }

  ghost predicate AllFit(c: char, w: string) {
    forall k :: 0 <= k < |w| ==> Fits(c, w[k])
  }

  /** The strings an item stands for. */
  ghost predicate InItem(item: Item, w: string) {
    match item
    case One(c) => |w| == 1 && Fits(c, w[0])
    case Star(c) => AllFit(c, w)
  }

  /** The language of a sequence of items: concatenations of one string of each. */
  ghost predicate InLanguage(items: seq<Item>, w: string) {
    if items == [] then w == []
    else exists k :: 0 <= k <= |w| && InItem(items[0], w[..k]) && InLanguage(items[1..], w[k..])
  }

  /** The first `n` characters of the text are in the language, and are all of it if the pattern ends in '$'. */
  ghost predicate Covers(r: Regex, text: string, n: nat) {
    n <= |text| && InLanguage(r.items, text[..n]) && (r.atEnd ==> n == |text|)
  }

  ghost predicate SomePrefix(r: Regex, text: string) {
    exists n :: 0 <= n <= |text| && Covers(r, text, n)
  }

  /** Some prefix of the text is matched. */
  ghost predicate Here(re: string, text: string) {
    SomePrefix(Read(re), text)
  }

  /** The whole specification: after '^' only the start of the text counts, otherwise every position. */
  ghost predicate Matches(re: string, text: string) {
    if re != [] && re[0] == '^' then Here(re[1..], text)
    else exists i :: 0 <= i <= |text| && Here(re, text[i..])
  }

  // ---------- the first item ----------

  lemma EmptyPattern(text: string)
    ensures Here([], text)
  {
    assert Covers(Read([]), text, 0);
  }

  lemma EndPattern(text: string)
    ensures Here("$", text) <==> text == []
  {
    assert Read("$") == Regex([], true);
    if text == [] {
      assert Covers(Read("$"), text, 0);
    }
    if Here("$", text) {
      var n :| 0 <= n <= |text| && Covers(Read("$"), text, n);
      assert text[..n] == [];
    }
  }

  /** A prefix is matched by an item and the rest when it splits into a string of the item and a prefix of what follows. */
  lemma FirstItem(item: Item, re: string, text: string, n: nat)
    requires n <= |text|
    ensures Covers(Prepend(item, Read(re)), text, n) <==>
            exists k :: 0 <= k <= n && InItem(item, text[..k]) && Covers(Read(re), text[k..], n - k)
  {
    var r, rest := Prepend(item, Read(re)), Read(re);
    assert r.items[0] == item && r.items[1..] == rest.items;
    var w := text[..n];
    forall k | 0 <= k <= n ensures w[..k] == text[..k] && w[k..] == text[k..][..n - k] {
    }
    if Covers(r, text, n) {
      var k :| 0 <= k <= |w| && InItem(r.items[0], w[..k]) && InLanguage(r.items[1..], w[k..]);
      assert w[..k] == text[..k] && Covers(rest, text[k..], n - k);
    }
    if k :| 0 <= k <= n && InItem(item, text[..k]) && Covers(rest, text[k..], n - k) {
      assert InItem(r.items[0], w[..k]) && InLanguage(r.items[1..], w[k..]);
    }
  }

  lemma OneItem(c: char, re: string, text: string)
    ensures SomePrefix(Prepend(One(c), Read(re)), text) <==>
            text != [] && Fits(c, text[0]) && Here(re, text[1..])
  {
    if n :| 0 <= n <= |text| && Covers(Prepend(One(c), Read(re)), text, n) {
      FirstItem(One(c), re, text, n);
      var k :| 0 <= k <= n && InItem(One(c), text[..k]) && Covers(Read(re), text[k..], n - k);
      assert k == 1 && text[..k][0] == text[0];
      assert 0 <= n - 1 <= |text[1..]|;
    }
    if text != [] && Fits(c, text[0]) && Here(re, text[1..]) {
      var n :| 0 <= n <= |text[1..]| && Covers(Read(re), text[1..], n);
      FirstItem(One(c), re, text, n + 1);
      assert InItem(One(c), text[..1]) && Covers(Read(re), text[1..], n + 1 - 1);
    }
  }

  /** Some number of leading characters fit `c`, and what follows them is matched. */
  ghost predicate StarHere(c: char, re: string, text: string) {
    exists k :: 0 <= k <= |text| && AllFit(c, text[..k]) && Here(re, text[k..])
  }

  lemma StarItem(c: char, re: string, text: string)
    ensures SomePrefix(Prepend(Star(c), Read(re)), text) <==> StarHere(c, re, text)
  {
    if n :| 0 <= n <= |text| && Covers(Prepend(Star(c), Read(re)), text, n) {
      FirstItem(Star(c), re, text, n);
      var k :| 0 <= k <= n && InItem(Star(c), text[..k]) && Covers(Read(re), text[k..], n - k);
      assert 0 <= n - k <= |text[k..]|;
      assert Here(re, text[k..]);
    }
    if StarHere(c, re, text) {
      var k :| 0 <= k <= |text| && AllFit(c, text[..k]) && Here(re, text[k..]);
      var n :| 0 <= n <= |text[k..]| && Covers(Read(re), text[k..], n);
      FirstItem(Star(c), re, text, k + n);
      assert InItem(Star(c), text[..k]) && Covers(Read(re), text[k..], k + n - k);
    }
  }

  // ---------- the matcher ----------

  /** Whether the pattern matches at the beginning of the text. */
  method MatchHere(re: string, text: string) returns (found: bool)
    ensures found == Here(re, text)
    decreases |re|, 0
  {
    if re == [] {
      EmptyPattern(text);
      return true;
    }
    if |re| > 1 && re[1] == '*' {
      assert Read(re) == Prepend(Star(re[0]), Read(re[2..]));
      StarItem(re[0], re[2..], text);
      found := MatchStar(re[0], re[2..], text);
      return;
    }
    if re[0] == '$' && |re| == 1 {
      EndPattern(text);
      return text == [];
    }
    assert Read(re) == Prepend(One(re[0]), Read(re[1..]));
    OneItem(re[0], re[1..], text);
    if text != [] && (re[0] == '.' || re[0] == text[0]) {
      found := MatchHere(re[1..], text[1..]);
      return;
    }
    return false;
  }

  lemma RunEnds(c: char, text: string, t: nat, k: nat)
    requires t <= |text| && (t == |text| || !Fits(c, text[t])) && k <= |text| && AllFit(c, text[..k])
    ensures k <= t
  {
  }

  /** Whether any number of `c` followed by the pattern matches at the beginning of the text. */
  method MatchStar(c: char, re: string, text: string) returns (found: bool)
    ensures found == StarHere(c, re, text)
    decreases |re|, 1
  {
    var t := 0;
    while true
      invariant 0 <= t <= |text| && AllFit(c, text[..t])
      invariant forall k :: 0 <= k < t ==> !Here(re, text[k..])
      decreases |text| - t
    {
      var here := MatchHere(re, text[t..]);
      if here {
        return true;
      }
      if t == |text| || !(text[t] == c || c == '.') {
        break;
      }
      t := t + 1;
    }
    forall k | 0 <= k <= |text| && AllFit(c, text[..k]) ensures !Here(re, text[k..]) {
      RunEnds(c, text, t, k);
    }
    return false;
  }

  /** Whether the pattern matches anywhere in the text. */
  method Match(re: string, text: string) returns (found: bool)
    ensures found == Matches(re, text)
  {
    if re != [] && re[0] == '^' {
      found := MatchHere(re[1..], text);
      return;
    }
    var t := 0;
    while true
      invariant 0 <= t <= |text| && forall i :: 0 <= i < t ==> !Here(re, text[i..])
      decreases |text| - t
    {
      var here := MatchHere(re, text[t..]);
      if here {
        return true;
      }
      if t == |text| {
        break;
      }
      t := t + 1;
    }
    return false;
  }
}
