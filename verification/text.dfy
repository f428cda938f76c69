/** String helpers with the semantics of the JavaScript built-ins the price
    script calls: `trim`, `toLowerCase`/`toUpperCase` (ASCII letters only),
    `includes`, `split` on a one-character separator, `join` and `replace`
    with a string pattern. */
module Text {
  import opened Wrappers

  predicate IsDigit(c: char)
  {
    '0' <= c <= '9'
  }

  /** The characters ECMAScript's StrWhiteSpaceChar admits (WhiteSpace and
      LineTerminator): skipped by `parseFloat`, removed by `trim`. */
  predicate IsJsSpace(c: char)
  {
    c == '\t' || c == '\n' || c == '\U{000B}' || c == '\U{000C}' || c == '\r' || c == ' '
    || c == '\U{00A0}' || c == '\U{1680}' || ('\U{2000}' <= c <= '\U{200A}')
    || c == '\U{2028}' || c == '\U{2029}' || c == '\U{202F}' || c == '\U{205F}'
    || c == '\U{3000}' || c == '\U{FEFF}'
  }

  /** Drops the leading white space of `s`. */
  function SkipSpace(s: string): (r: string)
    ensures |r| <= |s| && r == s[|s| - |r|..]
    ensures forall i | 0 <= i < |s| - |r| :: IsJsSpace(s[i])
    ensures r == [] || !IsJsSpace(r[0])
  {
    if s != [] && IsJsSpace(s[0]) then SkipSpace(s[1..]) else s
  }

  /** Drops the trailing white space of `s`. */
  function SkipSpaceAtEnd(s: string): (r: string)
    ensures |r| <= |s| && r == s[..|r|]
    ensures forall i | |r| <= i < |s| :: IsJsSpace(s[i])
    ensures r == [] || !IsJsSpace(r[|r| - 1])
  {
    if s != [] && IsJsSpace(s[|s| - 1]) then SkipSpaceAtEnd(s[..|s| - 1]) else s
  }

  /** `r` is the part of `s` from position `a` on, with only white space
      before and after it. */
  predicate CutFrom(s: string, r: string, a: int)
  {
    && 0 <= a && a + |r| <= |s|
    && r == s[a..a + |r|]
    && (forall i | 0 <= i < a :: IsJsSpace(s[i]))
    && (forall i | a + |r| <= i < |s| :: IsJsSpace(s[i]))
  }

  /** `s.trim()`: the part of `s` left once the white space at both ends is
      removed; the two ensures together pin it down. */
  function Trim(s: string): (r: string)
    ensures exists a :: CutFrom(s, r, a)
    ensures r == [] || (!IsJsSpace(r[0]) && !IsJsSpace(r[|r| - 1]))
  {
    var t := SkipSpace(s);
    var r := SkipSpaceAtEnd(t);
    SkipsCut(s, t, r);
    r
  }

  /** Dropping white space from the front and then from the back leaves a
      cut of the original text. */
  lemma SkipsCut(s: string, t: string, r: string)
    requires |t| <= |s| && t == s[|s| - |t|..] && (forall i | 0 <= i < |s| - |t| :: IsJsSpace(s[i]))
    requires |r| <= |t| && r == t[..|r|] && (forall i | |r| <= i < |t| :: IsJsSpace(t[i]))
    ensures CutFrom(s, r, |s| - |t|)
  {
    var a := |s| - |t|;
    assert r == s[a..a + |r|];
    assert forall i | a + |r| <= i < |s| :: s[i] == t[i - a];
  }

  /** The trim is the only cut of `s` with no white space at its ends. */
  lemma TrimUnique(s: string, r: string, a: int)
    requires CutFrom(s, r, a)
    requires r == [] || (!IsJsSpace(r[0]) && !IsJsSpace(r[|r| - 1]))
    ensures r == Trim(s)
  {
  }

  function LowerChar(c: char): char
  {
    if 'A' <= c <= 'Z' then (c as int + 32) as char else c
  }

  function UpperChar(c: char): char
  {
    if 'a' <= c <= 'z' then (c as int - 32) as char else c
  }

  /** `s.toLowerCase()` on ASCII letters. */
  function Lower(s: string): (r: string)
    ensures |r| == |s|
    ensures forall i | 0 <= i < |s| :: r[i] == LowerChar(s[i])
  {
    seq(|s|, i requires 0 <= i < |s| => LowerChar(s[i]))
  }

  /** What `toLowerCase` leaves: no upper-case letter, every other
      character in place, each upper-case letter replaced by its lower-case
      one. */
  lemma LowerLowers(s: string)
    ensures forall i | 0 <= i < |s| :: !('A' <= Lower(s)[i] <= 'Z')
    ensures forall i | 0 <= i < |s| && !('A' <= s[i] <= 'Z') :: Lower(s)[i] == s[i]
    ensures forall i | 0 <= i < |s| && 'A' <= s[i] <= 'Z' ::
      'a' <= Lower(s)[i] <= 'z' && UpperChar(Lower(s)[i]) == s[i]
  {
  }

  /** Lower-casing twice is lower-casing once. */
  lemma LowerIdempotent(s: string)
    ensures Lower(Lower(s)) == Lower(s)
  {
    LowerLowers(s);
  }

  /** `p` occurs in `s` at position `i`. */
  predicate OccursAt(s: string, p: string, i: int)
  {
    0 <= i && i + |p| <= |s| && s[i..i + |p|] == p
  }

  /** The position `s.indexOf(p)` reports, as an option. */
  function FindFrom(s: string, p: string, k: nat): (r: Option<nat>)
    requires k <= |s|
    decreases |s| - k
    ensures r.Some? ==> k <= r.value && OccursAt(s, p, r.value)
    ensures r.Some? ==> forall j | k <= j < r.value :: !OccursAt(s, p, j)
    ensures r.None? ==> forall j | k <= j <= |s| :: !OccursAt(s, p, j)
  {
    if k + |p| > |s| then None
    else if s[k..k + |p|] == p then Some(k)
    else if k == |s| then None
    else FindFrom(s, p, k + 1)
  }

  function Find(s: string, p: string): (r: Option<nat>)
    ensures r.Some? ==> OccursAt(s, p, r.value) && forall j | 0 <= j < r.value :: !OccursAt(s, p, j)
    ensures r.None? ==> forall j | 0 <= j <= |s| :: !OccursAt(s, p, j)
  {
    FindFrom(s, p, 0)
  }

  /** `s.includes(p)`. */
  function Includes(s: string, p: string): (b: bool)
    ensures b <==> exists i | 0 <= i <= |s| :: OccursAt(s, p, i)
  {
    Find(s, p).Some?
  }

  /** `s.replace(p, rep)` with a string pattern: only the FIRST occurrence of
      `p` is replaced. */
  function ReplaceFirst(s: string, p: string, rep: string): (r: string)
    ensures (forall j | 0 <= j <= |s| :: !OccursAt(s, p, j)) ==> r == s
    ensures forall i | 0 <= i <= |s| && OccursAt(s, p, i) && (forall j | 0 <= j < i :: !OccursAt(s, p, j)) ::
      r == s[..i] + rep + s[i + |p|..]
  {
    match Find(s, p)
    case None => s
    case Some(i) => s[..i] + rep + s[i + |p|..]
  }

  /** `parts.join(sep)`. */
  function Join(parts: seq<string>, sep: char): string
  {
    if parts == [] then []
    else if |parts| == 1 then parts[0]
    else parts[0] + [sep] + Join(parts[1..], sep)
  }

  /** `s.split(sep)` for a one-character separator. The empty string splits
      into one empty piece, so the result is never empty. The contract pins
      the result down completely: the pieces hold no separator and joining
      them gives `s` back. */
  function Split(s: string, sep: char): (r: seq<string>)
    ensures |r| >= 1
    ensures forall k | 0 <= k < |r| :: sep !in r[k]
    ensures Join(r, sep) == s
  {
    if s == [] then [[]]
    else
      var rest := Split(s[1..], sep);
      if s[0] == sep then
        assert Join([[]] + rest, sep) == [sep] + Join(rest, sep) by {
          assert ([[]] + rest)[1..] == rest;
        }
        [[]] + rest
      else
        var r := [[s[0]] + rest[0]] + rest[1..];
        assert Join(r, sep) == [s[0]] + Join(rest, sep) by {
          if |rest| > 1 {
            assert r[1..] == rest[1..];
          }
        }
        r
  }
}
