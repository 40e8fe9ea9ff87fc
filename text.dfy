/**
 * The JavaScript string built-ins the hook relies on (`String.prototype.trim` and
 * `startsWith`), the splicing of a template literal, and `includes`, which the
 * tests use to check the request.
 */
module Text {

  /**
   * The characters `trim` removes: ECMAScript's WhiteSpace (tab, vertical tab,
   * form feed, space, no-break space, byte order mark and the Unicode `Zs`
   * category) and LineTerminator (line feed, carriage return, U+2028, U+2029).
   */
  predicate IsWhiteSpace(c: char) {
    || c == '\t' || c == '\n' || c == '\U{000B}' || c == '\U{000C}' || c == '\r'
    || c == ' ' || c == '\U{00A0}' || c == '\U{1680}' || ('\U{2000}' <= c <= '\U{200A}')
    || c == '\U{2028}' || c == '\U{2029}' || c == '\U{202F}' || c == '\U{205F}'
    || c == '\U{3000}' || c == '\U{FEFF}'
  }

  /** Every character of `s` is whitespace (the empty string included). */
  predicate Blank(s: string) {
    forall k :: 0 <= k < |s| ==> IsWhiteSpace(s[k])
  }

  /** `s` neither starts nor ends with whitespace. */
  predicate Bare(s: string) {
    s == [] || (!IsWhiteSpace(s[0]) && !IsWhiteSpace(s[|s| - 1]))
  }

  /** `t` occurs in `s` at offset `lead`, and everything around it is whitespace. */
  predicate Framed(s: string, lead: nat, t: string) {
    && lead + |t| <= |s|
    && (forall i :: 0 <= i < |t| ==> s[lead + i] == t[i])
    && (forall i :: 0 <= i < lead ==> IsWhiteSpace(s[i]))
    && (forall i :: lead + |t| <= i < |s| ==> IsWhiteSpace(s[i]))
  }

  /** How many whitespace characters `s` starts with. */
  function LeadingBlanks(s: string): (n: nat)
    ensures n <= |s|
    ensures forall i :: 0 <= i < n ==> IsWhiteSpace(s[i])
    ensures n == |s| || !IsWhiteSpace(s[n])
  {
    if s != [] && IsWhiteSpace(s[0]) then 1 + LeadingBlanks(s[1..]) else 0
  }

  /** Where the trailing whitespace of `s` begins. */
  function ContentEnd(s: string): (n: nat)
    ensures n <= |s|
    ensures forall i :: n <= i < |s| ==> IsWhiteSpace(s[i])
    ensures n == 0 || !IsWhiteSpace(s[n - 1])
  {
    if s != [] && IsWhiteSpace(s[|s| - 1]) then ContentEnd(s[..|s| - 1]) else |s|
  }

  /** Drops the leading whitespace that `trim` removes and keeps the rest. */
  function TrimStart(s: string): string {
    s[LeadingBlanks(s)..]
  }

  /** Drops the trailing whitespace that `trim` removes and keeps the rest. */
  function TrimEnd(s: string): string {
    s[..ContentEnd(s)]
  }

  /** `trim`: the part of `s` left once whitespace is removed from both ends. */
  function Trim(s: string): (r: string)
    ensures Bare(r)
    ensures exists lead: nat :: Framed(s, lead, r)
  {
    var t := TrimStart(s);
    var r := TrimEnd(t);
    TrimEndOfTrimStart(s, t, r);
    r
  }

  /** Cutting a blank prefix, then a blank suffix, leaves a bare core framed by the cuts. */
  lemma TrimEndOfTrimStart(s: string, t: string, r: string)
    requires t == TrimStart(s) && r == TrimEnd(t)
    ensures Bare(r) && Framed(s, |s| - |t|, r)
  {
    var lead := |s| - |t|;
    forall i | lead + |r| <= i < |s| ensures IsWhiteSpace(s[i]) {
      assert t[i - lead] == s[i];
    }
  }

  /** At most one whitespace-free core sits framed by whitespace in a string. */
  lemma FramedBareUnique(s: string, a: nat, t: string, b: nat, u: string)
    requires Framed(s, a, t) && Bare(t)
    requires Framed(s, b, u) && Bare(u)
    ensures t == u
  {
    if t != [] && u != [] {
      assert s[a] == t[0] && s[b] == u[0];
      assert a == b;
      assert s[a + |t| - 1] == t[|t| - 1] && s[b + |u| - 1] == u[|u| - 1];
      assert |t| == |u|;
    }
  }

  /** `trim` returns exactly the whitespace-free core of its input: the reference definition. */
  lemma TrimUnique(s: string, lead: nat, t: string)
    requires Framed(s, lead, t) && Bare(t)
    ensures Trim(s) == t
  {
    var r := Trim(s);
    var k: nat :| Framed(s, k, r);
    FramedBareUnique(s, lead, t, k, r);
  }

  /** A string without surrounding whitespace is its own trim. */
  lemma TrimBare(s: string)
    requires Bare(s)
    ensures Trim(s) == s
  {
    assert Framed(s, 0, s);
    TrimUnique(s, 0, s);
  }

  /** Trimming twice is trimming once. */
  lemma TrimIdempotent(s: string)
    ensures Trim(Trim(s)) == Trim(s)
  {
    TrimBare(Trim(s));
  }

  /** `trim` gives the empty string exactly for a string made of whitespace alone. */
  lemma TrimEmptyIffBlank(s: string)
    ensures Trim(s) == [] <==> Blank(s)
  {
    if Blank(s) {
      assert Framed(s, 0, []);
      TrimUnique(s, 0, []);
    }
    if Trim(s) == [] {
      var k: nat :| Framed(s, k, []);
    }
  }

  /** `startsWith`: `p` is a prefix of `s`. */
  predicate StartsWith(s: string, p: string) {
    |p| <= |s| && s[..|p|] == p
  }

  /** `TrimStart` removes exactly a blank prefix that is followed by a non-whitespace character. */
  lemma {:induction false} TrimStartSkipsBlank(pre: string, x: string)
    requires Blank(pre) && (x == [] || !IsWhiteSpace(x[0]))
    ensures TrimStart(pre + x) == x
  {
    if pre == [] {
      assert pre + x == x;
    } else {
      assert (pre + x)[1..] == pre[1..] + x;
      TrimStartSkipsBlank(pre[1..], x);
    }
  }

  /** `TrimEnd` never cuts into a leading word that ends with non-whitespace. */
  lemma TrimEndKeepsWord(w: string, rest: string)
    requires w != [] && !IsWhiteSpace(w[|w| - 1])
    ensures StartsWith(TrimEnd(w + rest), w)
  {
    var x := w + rest;
    var r := TrimEnd(x);
    var m := |w| - 1;
    assert x[m] == w[m];
    assert |w| <= |r|;
    assert r[..|w|] == w by {
      forall i | 0 <= i < |w| ensures r[..|w|][i] == w[i] {
        assert r[i] == x[i];
      }
    }
  }

  /** After leading whitespace, a word that starts and ends with non-whitespace survives `trim` at the front. */
  lemma TrimKeepsLeadingWord(pre: string, w: string, rest: string)
    requires Blank(pre) && w != [] && Bare(w)
    ensures StartsWith(Trim(pre + w + rest), w)
  {
    assert pre + w + rest == pre + (w + rest);
    TrimStartSkipsBlank(pre, w + rest);
    TrimEndKeepsWord(w, rest);
  }

  /** `w` occurs in `s` starting at index `i`. */
  predicate OccursAt(s: string, w: string, i: nat) {
    i + |w| <= |s| && s[i..i + |w|] == w
  }

  /** `includes`, as the tests use it: `w` occurs somewhere in `s`. */
  ghost predicate Contains(s: string, w: string) {
    exists i: nat :: OccursAt(s, w, i)
  }

  lemma ContainsInfix(a: string, w: string, b: string)
    ensures Contains(a + w + b, w)
  {
    assert OccursAt(a + w + b, w, |a|);
  }

  /** The text of a template literal: its fragments joined in order. */
  function Concat(pieces: seq<string>): string {
    if pieces == [] then [] else pieces[0] + Concat(pieces[1..])
  }

  lemma {:induction false} ConcatAppend(a: seq<string>, b: seq<string>)
    ensures Concat(a + b) == Concat(a) + Concat(b)
  {
    if a != [] {
      assert (a + b)[1..] == a[1..] + b;
      ConcatAppend(a[1..], b);
    } else {
      assert a + b == b;
    }
  }

  /** Joining, split at any fragment boundary. */
  lemma ConcatSplit(pieces: seq<string>, k: nat)
    requires k <= |pieces|
    ensures Concat(pieces) == Concat(pieces[..k]) + Concat(pieces[k..])
  {
    assert pieces[..k] + pieces[k..] == pieces;
    ConcatAppend(pieces[..k], pieces[k..]);
  }

  /** A run of consecutive fragments appears, joined, in the joined text. */
  lemma ConcatContainsRun(pieces: seq<string>, i: nat, j: nat)
    requires i <= j <= |pieces|
    ensures Contains(Concat(pieces), Concat(pieces[i..j]))
  {
    var rest := pieces[i..];
    var a, w, b := Concat(pieces[..i]), Concat(pieces[i..j]), Concat(rest[j - i..]);
    assert Concat(rest) == w + b by {
      assert rest[..j - i] == pieces[i..j];
      ConcatSplit(rest, j - i);
    }
    assert Concat(pieces) == a + (w + b) by {
      ConcatSplit(pieces, i);
    }
    assert OccursAt(a + (w + b), w, |a|);
  }

  /** Each single fragment appears in the joined text. */
  lemma ConcatContainsPiece(pieces: seq<string>, i: nat)
    requires i < |pieces|
    ensures Contains(Concat(pieces), pieces[i])
  {
    ConcatContainsRun(pieces, i, i + 1);
    var single := pieces[i..i + 1];
    assert single == [pieces[i]] && single[1..] == [];
    assert Concat(single) == pieces[i] + Concat([]);
    assert pieces[i] + [] == pieces[i];
  }
}
