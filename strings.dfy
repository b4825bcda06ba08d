/**
 * String helpers shared by the model: the ASCII part of JavaScript's
 * `toLowerCase` and `trim`, `indexOf`, `split` on one character and its
 * inverse `join`, and the decimal rendering of a number in a template literal.
 */
module Strings {
  import opened Options

  /** The whitespace `String.prototype.trim` removes, restricted to ASCII. */
  predicate IsWhitespace(c: char) {
    c == ' ' || c == '\t' || c == '\n' || c == '\U{000B}' || c == '\U{000C}' || c == '\r'
  }

  predicate IsUpper(c: char) { 'A' <= c <= 'Z' }

  predicate IsDigit(c: char) { '0' <= c <= '9' }

  /** `toLowerCase` on one character: ASCII capitals become small letters. */
  function LowerChar(c: char): char {
    if IsUpper(c) then (c as int + 32) as char else c
  }

  /** `s.toLowerCase()`, character by character. */
  function ToLower(s: string): (r: string)
    ensures |r| == |s|
  {
    if s == [] then [] else [LowerChar(s[0])] + ToLower(s[1..])
  }

  /** Lower-casing keeps the length and maps every character on its own; no capital is left. */
  lemma {:induction false} ToLowerSpec(s: string)
    ensures |ToLower(s)| == |s|
    ensures forall i :: 0 <= i < |s| ==> ToLower(s)[i] == LowerChar(s[i])
    ensures forall i :: 0 <= i < |s| ==> !IsUpper(ToLower(s)[i])
  {
    if s != [] {
      ToLowerSpec(s[1..]);
    }
  }

  /** `trimStart`: drops the leading whitespace. */
  function TrimStart(s: string): (r: string)
    ensures |r| <= |s|
  {
    if s != [] && IsWhitespace(s[0]) then TrimStart(s[1..]) else s
  }

  /** The result of `TrimStart` is the longest suffix that does not start with whitespace. */
  lemma {:induction false} TrimStartSpec(s: string)
    ensures |TrimStart(s)| <= |s|
    ensures TrimStart(s) == s[|s| - |TrimStart(s)|..]
    ensures forall i :: 0 <= i < |s| - |TrimStart(s)| ==> IsWhitespace(s[i])
    ensures TrimStart(s) == [] || !IsWhitespace(TrimStart(s)[0])
  {
    if s != [] && IsWhitespace(s[0]) {
      var t := s[1..];
      TrimStartSpec(t);
      var n := |TrimStart(t)|;
      assert TrimStart(s) == TrimStart(t);
      assert t[|t| - n..] == s[|s| - n..];
      forall i | 0 <= i < |s| - n
        ensures IsWhitespace(s[i])
      {
        if i > 0 {
          assert s[i] == t[i - 1];
        }
      }
    }
  }

  /** `trimEnd`: drops the trailing whitespace. */
  function TrimEnd(s: string): (r: string)
    ensures |r| <= |s|
  {
    if s != [] && IsWhitespace(s[|s| - 1]) then TrimEnd(s[..|s| - 1]) else s
  }

  /** The result of `TrimEnd` is the longest prefix that does not end with whitespace. */
  lemma {:induction false} TrimEndSpec(s: string)
    ensures |TrimEnd(s)| <= |s|
    ensures TrimEnd(s) == s[..|TrimEnd(s)|]
    ensures forall i :: |TrimEnd(s)| <= i < |s| ==> IsWhitespace(s[i])
    ensures TrimEnd(s) == [] || !IsWhitespace(TrimEnd(s)[|TrimEnd(s)| - 1])
  {
    if s != [] && IsWhitespace(s[|s| - 1]) {
      var t := s[..|s| - 1];
      TrimEndSpec(t);
      var n := |TrimEnd(t)|;
      assert TrimEnd(s) == TrimEnd(t);
      assert t[..n] == s[..n];
      forall i | n <= i < |s|
        ensures IsWhitespace(s[i])
      {
        if i < |t| {
          assert s[i] == t[i];
        }
      }
    }
  }

  /** `s.trim()`. */
  function Trim(s: string): (r: string)
    ensures |r| <= |s|
  {
    TrimEnd(TrimStart(s))
  }

  /**
   * `trim` keeps a contiguous piece of its input, starting after the leading
   * whitespace, with no whitespace at either end.
   */
  lemma TrimSpec(s: string)
    ensures |TrimStart(s)| <= |s|
    ensures var r := Trim(s); var k := |s| - |TrimStart(s)|;
      k + |r| <= |s| && r == s[k..k + |r|]
      && (r == [] || (!IsWhitespace(r[0]) && !IsWhitespace(r[|r| - 1])))
    ensures forall i :: 0 <= i < |s| - |TrimStart(s)| ==> IsWhitespace(s[i])
    ensures forall i :: |s| - |TrimStart(s)| + |Trim(s)| <= i < |s| ==> IsWhitespace(s[i])
  {
    TrimStartSpec(s);
    var t := TrimStart(s);
    TrimEndSpec(t);
    var k := |s| - |t|;
    TakeOfDrop(s, k, |Trim(s)|, k + |Trim(s)|);
    forall i | k + |Trim(s)| <= i < |s|
      ensures IsWhitespace(s[i])
    {
      assert s[i] == t[i - k];
    }
  }

  /** Taking `m` elements after dropping `k` is the slice from `k` to `e == k + m`. */
  lemma TakeOfDrop(s: string, k: nat, m: nat, e: nat)
    requires k + m <= |s| && e == k + m
    ensures s[k..][..m] == s[k..e]
  {
  }

  /** Trimming twice is trimming once. */
  lemma TrimIdempotent(s: string)
    ensures Trim(Trim(s)) == Trim(s)
  {
    var r := Trim(s);
    TrimSpec(s);
    assert TrimStart(r) == r;
    assert TrimEnd(r) == r;
  }

  lemma {:induction false} ToLowerIdempotent(s: string)
    ensures ToLower(ToLower(s)) == ToLower(s)
  {
    if s != [] {
      ToLowerIdempotent(s[1..]);
    }
  }

  lemma {:induction false} TrimStartToLower(s: string)
    ensures TrimStart(ToLower(s)) == ToLower(TrimStart(s))
  {
    if s != [] && IsWhitespace(s[0]) {
      TrimStartToLower(s[1..]);
    }
  }

  lemma {:induction false} ToLowerPrefix(s: string, n: nat)
    requires n <= |s|
    ensures |ToLower(s)| == |s| && ToLower(s[..n]) == ToLower(s)[..n]
  {
    ToLowerSpec(s);
    ToLowerSpec(s[..n]);
  }

  lemma {:induction false} TrimEndToLower(s: string)
    ensures TrimEnd(ToLower(s)) == ToLower(TrimEnd(s))
    decreases |s|
  {
    ToLowerSpec(s);
    if s != [] {
      var n := |s| - 1;
      var l := ToLower(s);
      assert IsWhitespace(l[n]) == IsWhitespace(s[n]);
      if IsWhitespace(s[n]) {
        ToLowerPrefix(s, n);
        TrimEndToLower(s[..n]);
      }
    }
  }

  /** Lower-casing never turns whitespace into non-whitespace or back, so it commutes with `trim`. */
  lemma TrimToLower(s: string)
    ensures Trim(ToLower(s)) == ToLower(Trim(s))
  {
    TrimStartToLower(s);
    TrimEndToLower(TrimStart(s));
  }

  /** Every character is whitespace. */
  predicate AllWhitespace(s: string) {
    forall i :: 0 <= i < |s| ==> IsWhitespace(s[i])
  }

  lemma {:induction false} ToLowerConcat(a: string, b: string)
    ensures ToLower(a + b) == ToLower(a) + ToLower(b)
  {
    if a != [] {
      assert (a + b)[1..] == a[1..] + b;
      ToLowerConcat(a[1..], b);
    } else {
      assert a + b == b;
    }
  }

  /** Whitespace has no case. */
  lemma {:induction false} ToLowerWhitespace(s: string)
    requires AllWhitespace(s)
    ensures ToLower(s) == s
  {
    if s != [] {
      ToLowerWhitespace(s[1..]);
    }
  }

  lemma {:induction false} TrimStartLeading(lead: string, s: string)
    requires AllWhitespace(lead)
    ensures TrimStart(lead + s) == TrimStart(s)
  {
    if lead != [] {
      assert (lead + s)[1..] == lead[1..] + s;
      TrimStartLeading(lead[1..], s);
    } else {
      assert lead + s == s;
    }
  }

  lemma {:induction false} TrimEndTrailing(s: string, trail: string)
    requires AllWhitespace(trail)
    ensures TrimEnd(s + trail) == TrimEnd(s)
  {
    if trail != [] {
      var init := trail[..|trail| - 1];
      assert (s + trail)[..|s + trail| - 1] == s + init;
      TrimEndTrailing(s, init);
    } else {
      assert s + trail == s;
    }
  }

  /** Whitespace after `s` survives `trimStart` when `s` has a non-space, and vanishes otherwise. */
  lemma {:induction false} TrimStartAppend(s: string, trail: string)
    requires AllWhitespace(trail)
    ensures TrimStart(s) != [] ==> TrimStart(s + trail) == TrimStart(s) + trail
    ensures TrimStart(s) == [] ==> TrimStart(s + trail) == []
  {
    if s == [] {
      TrimStartLeading(trail, []);
      assert trail + [] == trail == s + trail;
    } else if IsWhitespace(s[0]) {
      assert (s + trail)[1..] == s[1..] + trail;
      TrimStartAppend(s[1..], trail);
    }
  }

  /** `trim` ignores whitespace added at either end. */
  lemma TrimPadding(lead: string, s: string, trail: string)
    requires AllWhitespace(lead) && AllWhitespace(trail)
    ensures Trim(lead + s + trail) == Trim(s)
  {
    assert lead + s + trail == lead + (s + trail);
    TrimStartLeading(lead, s + trail);
    TrimStartAppend(s, trail);
    if TrimStart(s) != [] {
      TrimEndTrailing(TrimStart(s), trail);
    }
  }

  /** `s.indexOf(c)`: the first position of `c`, or None for -1. */
  function IndexOf(s: string, c: char): (r: Option<nat>)
    ensures r.Some? ==> r.value < |s| && s[r.value] == c
  {
    if s == [] then None
    else if s[0] == c then Some(0)
    else match IndexOf(s[1..], c)
      case None => None
      case Some(i) => Some(i + 1)
  }

  /** `IndexOf` finds `c` exactly when it occurs, and then its first occurrence. */
  lemma {:induction false} IndexOfSpec(s: string, c: char)
    ensures IndexOf(s, c).None? <==> c !in s
    ensures IndexOf(s, c).Some? ==> c !in s[..IndexOf(s, c).value]
  {
    if s != [] && s[0] != c {
      IndexOfSpec(s[1..], c);
      var r := IndexOf(s[1..], c);
      if r.Some? {
        assert s[1..][..r.value] == s[1..r.value + 1];
      }
    }
  }

  /**
   * `s.split(sep)` for a one-character separator: the pieces between the
   * occurrences of `sep`, in order; there is always at least one piece and
   * the last one is the text after the last `sep`.
   */
  function Split(s: string, sep: char): (r: seq<string>)
    ensures |r| >= 1
    decreases |s|
  {
    match IndexOf(s, sep)
    case None => [s]
    case Some(i) => [s[..i]] + Split(s[i + 1..], sep)
  }

  /** No piece of a split holds the separator. */
  lemma {:induction false} SplitPieces(s: string, sep: char)
    ensures forall j :: 0 <= j < |Split(s, sep)| ==> sep !in Split(s, sep)[j]
    decreases |s|
  {
    var r := IndexOf(s, sep);
    IndexOfSpec(s, sep);
    if r.Some? {
      var i := r.value;
      var rest := Split(s[i + 1..], sep);
      SplitUnfold(s, sep, i);
      SplitPieces(s[i + 1..], sep);
      forall j | 1 <= j < |Split(s, sep)|
        ensures sep !in Split(s, sep)[j]
      {
        assert Split(s, sep)[j] == rest[j - 1];
      }
    }
  }

  /** Where the last piece of a split starts: just after the last `sep`, or 0 when there is none. */
  function LastStart(s: string, sep: char): (k: nat)
    ensures k <= |s|
    decreases |s|
  {
    match IndexOf(s, sep)
    case None => 0
    case Some(i) => i + 1 + LastStart(s[i + 1..], sep)
  }

  /** The last piece of a split: the text after the last `sep`, or all of `s`. */
  function LastPiece(s: string, sep: char): string {
    s[LastStart(s, sep)..]
  }

  /** The last piece of `s` is the last piece of the text after the first `sep`. */
  lemma LastPieceUnfold(s: string, sep: char, i: nat)
    requires IndexOf(s, sep) == Some(i)
    ensures LastPiece(s, sep) == LastPiece(s[i + 1..], sep)
  {
    var k := LastStart(s[i + 1..], sep);
    DropOfDrop(s, i + 1, k, LastStart(s, sep));
  }

  /** `LastPiece` is the element `split(sep).pop()` returns. */
  lemma {:induction false} LastPieceOfSplit(s: string, sep: char)
    ensures LastPiece(s, sep) == Split(s, sep)[|Split(s, sep)| - 1]
    decreases |s|
  {
    var r := IndexOf(s, sep);
    if r.Some? {
      var i := r.value;
      var rest := Split(s[i + 1..], sep);
      SplitUnfold(s, sep, i);
      LastPieceUnfold(s, sep, i);
      LastPieceOfSplit(s[i + 1..], sep);
      assert ([s[..i]] + rest)[|rest|] == rest[|rest| - 1];
    }
  }

  /** A last piece that is not all of `s` comes right after a separator. */
  lemma {:induction false} SplitLast(s: string, sep: char)
    ensures LastStart(s, sep) > 0 ==> s[LastStart(s, sep) - 1] == sep
    decreases |s|
  {
    var r := IndexOf(s, sep);
    if r.Some? {
      var i := r.value;
      var tail := s[i + 1..];
      SplitLast(tail, sep);
      var k := LastStart(tail, sep);
      var j := LastStart(s, sep);
      assert j == i + 1 + k;
      if k > 0 {
        assert s[j - 1] == tail[k - 1];
      } else {
        assert j - 1 == i;
      }
    }
  }

  /** Dropping `a` and then `b` elements drops `c == a + b`. */
  lemma DropOfDrop(s: string, a: nat, b: nat, c: nat)
    requires a + b <= |s| && c == a + b
    ensures s[a..][b..] == s[c..]
  {
  }

  /** The last piece of a split holds no separator. */
  lemma {:induction false} LastPieceFree(s: string, sep: char)
    ensures sep !in LastPiece(s, sep)
    decreases |s|
  {
    var r := IndexOf(s, sep);
    if r.Some? {
      LastPieceUnfold(s, sep, r.value);
      LastPieceFree(s[r.value + 1..], sep);
    } else {
      IndexOfSpec(s, sep);
      assert LastPiece(s, sep) == s;
    }
  }

  /** `parts.join(sep)`. */
  function Join(parts: seq<string>, sep: char): string {
    if parts == [] then []
    else if |parts| == 1 then parts[0]
    else parts[0] + [sep] + Join(parts[1..], sep)
  }

  /** Joining the pieces of a split gives the original string back. */
  lemma {:induction false} JoinSplit(s: string, sep: char)
    ensures Join(Split(s, sep), sep) == s
    decreases |s|
  {
    var r := IndexOf(s, sep);
    if r.Some? {
      var i := r.value;
      var tail := s[i + 1..];
      var rest := Split(tail, sep);
      SplitUnfold(s, sep, i);
      JoinCons(s[..i], rest, sep);
      JoinSplit(tail, sep);
      AroundIndex(s, i);
    }
  }

  /** A string is the text before position `i`, the element at `i` and the text after it. */
  lemma AroundIndex(s: string, i: nat)
    requires i < |s|
    ensures s == s[..i] + [s[i]] + s[i + 1..]
  {
  }

  lemma SplitUnfold(s: string, sep: char, i: nat)
    requires IndexOf(s, sep) == Some(i)
    ensures Split(s, sep) == [s[..i]] + Split(s[i + 1..], sep)
  {
  }

  lemma JoinCons(first: string, rest: seq<string>, sep: char)
    requires |rest| >= 1
    ensures Join([first] + rest, sep) == first + [sep] + Join(rest, sep)
  {
    assert ([first] + rest)[1..] == rest;
  }

  lemma {:induction false} IndexOfConcat(a: string, b: string, sep: char)
    requires sep !in a
    ensures IndexOf(a + [sep] + b, sep) == Some(|a|)
  {
    var s := a + [sep] + b;
    if a != [] {
      assert s[0] == a[0];
      assert s[1..] == a[1..] + [sep] + b;
      IndexOfConcat(a[1..], b, sep);
    }
  }

  /** Splitting pieces that contain no separator after joining them gives the pieces back. */
  lemma {:induction false} SplitJoin(parts: seq<string>, sep: char)
    requires |parts| >= 1
    requires forall j :: 0 <= j < |parts| ==> sep !in parts[j]
    ensures Split(Join(parts, sep), sep) == parts
    decreases |parts|
  {
    if |parts| > 1 {
      var s := Join(parts, sep);
      var rest := Join(parts[1..], sep);
      IndexOfConcat(parts[0], rest, sep);
      assert s[..|parts[0]|] == parts[0];
      assert s[|parts[0]| + 1..] == rest;
      SplitJoin(parts[1..], sep);
    }
  }

  /** The digit character for `d`. */
  function DigitChar(d: nat): char
    requires d < 10
  {
    ('0' as int + d) as char
  }

  /** The number a string of decimal digits denotes. */
  function DecimalValue(s: string): nat
    requires forall i :: 0 <= i < |s| ==> IsDigit(s[i])
  {
    if s == [] then 0
    else
      var d := s[|s| - 1];
      assert IsDigit(d);
      10 * DecimalValue(s[..|s| - 1]) + (d as int - '0' as int)
  }

  /** `${n}` for a non-negative integer: its decimal numeral, without leading zeros. */
  function NatToString(n: nat): (r: string)
    ensures |r| >= 1
    ensures forall i :: 0 <= i < |r| ==> IsDigit(r[i])
    ensures r[0] != '0' || r == "0"
    ensures DecimalValue(r) == n
  {
    if n < 10 then [DigitChar(n)]
    else
      var r := NatToString(n / 10) + [DigitChar(n % 10)];
      assert r[..|r| - 1] == NatToString(n / 10);
      r
  }
}
