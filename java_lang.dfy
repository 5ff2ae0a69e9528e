/**
 * The behaviour of the few java.lang operations the core relies on:
 * String.trim, String.indexOf / lastIndexOf, String.split with a
 * one-character pattern, Integer.toString / Long.toString,
 * Integer.parseInt, and 32-bit int addition.
 */
module JavaLang {
  import opened Wrappers

  // ---------------------------------------------------------------
  // String.trim
  // ---------------------------------------------------------------

  /** String.trim removes every character whose code is at most U+0020. */
  predicate IsTrimmable(ch: char) {
    ch <= ' '
  }

  /** No trimmable character at either end. */
  predicate IsTrimmed(s: string) {
    s == [] || (!IsTrimmable(s[0]) && !IsTrimmable(s[|s| - 1]))
  }

  function TrimStart(s: string): (r: string)
    ensures |r| <= |s| && r == s[|s| - |r|..]
    ensures r != [] ==> !IsTrimmable(r[0])
    ensures forall i :: 0 <= i < |s| - |r| ==> IsTrimmable(s[i])
  {
    if s != [] && IsTrimmable(s[0]) then TrimStart(s[1..]) else s
  }

  function TrimEnd(s: string): (r: string)
    ensures |r| <= |s| && r == s[..|r|]
    ensures r != [] ==> !IsTrimmable(r[|r| - 1])
    ensures forall i :: |r| <= i < |s| ==> IsTrimmable(s[i])
  {
    if s != [] && IsTrimmable(s[|s| - 1]) then TrimEnd(s[..|s| - 1]) else s
  }

  /** String.trim(). */
  function Trim(s: string): (r: string)
    ensures |r| <= |s|
    ensures IsTrimmed(r)
  {
    var t := TrimStart(s);
    var r := TrimEnd(t);
    assert r != [] ==> r[0] == t[0];
    r
  }

  /** Trimming gives the empty string exactly when every character is trimmable. */
  lemma TrimEmptyIff(s: string)
    ensures Trim(s) == [] <==> forall i :: 0 <= i < |s| ==> IsTrimmable(s[i])
  {
    var t := TrimStart(s);
    if t != [] {
      assert !IsTrimmable(t[0]);
      assert TrimEnd(t) != [];
      assert !IsTrimmable(s[|s| - |t|]);
    }
  }

  /** A string that is already trimmed is left unchanged. */
  lemma TrimNoop(s: string)
    requires IsTrimmed(s)
    ensures Trim(s) == s
  {
  }

  /** One trimmable character in front of a trimmed string is all that trim removes. */
  lemma TrimDropsBlank(e: string)
    requires |e| >= 2 && IsTrimmable(e[0]) && IsTrimmed(e[1..])
    ensures Trim(e) == e[1..]
  {
    var t := e[1..];
    assert TrimStart(t) == t;
    assert TrimStart(e) == TrimStart(t);
    assert TrimEnd(t) == t;
  }

  // ---------------------------------------------------------------
  // String.indexOf(ch, from) and String.lastIndexOf(ch, from)
  // ---------------------------------------------------------------

  /** String.indexOf(c, from): the first position at or after from holding c, or -1. */
  function IndexOf(s: string, c: char, from: nat): (r: int)
    ensures r == -1 || (from <= r < |s| && s[r] == c)
    ensures r == -1 ==> forall i :: from <= i < |s| ==> s[i] != c
    ensures r != -1 ==> forall i :: from <= i < r ==> s[i] != c
    decreases |s| - from
  {
    if from >= |s| then -1
    else if s[from] == c then from
    else IndexOf(s, c, from + 1)
  }

  /** String.lastIndexOf(c, from): the last position at or before from holding c, or -1. */
  function LastIndexOf(s: string, c: char, from: int): (r: int)
    ensures r == -1 || (0 <= r <= from && r < |s| && s[r] == c)
    ensures forall i :: r < i <= from && 0 <= i < |s| ==> s[i] != c
    decreases if from < 0 then 0 else from + 1
  {
    if from < 0 then -1
    else if from >= |s| then LastIndexOf(s, c, |s| - 1)
    else if s[from] == c then from
    else LastIndexOf(s, c, from - 1)
  }

  // ---------------------------------------------------------------
  // String.split with a pattern that matches one literal character
  // ---------------------------------------------------------------

  /** The pieces joined back with the separator between them. */
  function Join(pieces: seq<string>, sep: char): string
  {
    if pieces == [] then ""
    else if |pieces| == 1 then pieces[0]
    else pieces[0] + [sep] + Join(pieces[1..], sep)
  }

  lemma {:induction false} JoinSnoc(pieces: seq<string>, p: string, sep: char)
    requires pieces != []
    ensures Join(pieces + [p], sep) == Join(pieces, sep) + [sep] + p
    decreases |pieces|
  {
    if |pieces| == 1 {
      assert (pieces + [p])[1..] == [p];
    } else {
      assert (pieces + [p])[1..] == pieces[1..] + [p];
      JoinSnoc(pieces[1..], p, sep);
    }
  }

  /** Every piece between occurrences of sep, empty ones included. */
  function SplitAll(s: string, sep: char): (r: seq<string>)
    ensures |r| >= 1
    ensures forall k :: 0 <= k < |r| ==> sep !in r[k]
    ensures Join(r, sep) == s
    decreases |s|
  {
    var i := IndexOf(s, sep, 0);
    if i == -1 then
      assert forall j :: 0 <= j < |s| ==> s[j] != sep;
      [s]
    else
      var rest := SplitAll(s[i + 1..], sep);
      var r := [s[..i]] + rest;
      assert r[1..] == rest;
      assert s == s[..i] + [sep] + s[i + 1..];
      r
  }

  /** Splitting the join of pieces free of sep gives the pieces back. */
  lemma {:induction false} SplitAllJoin(pieces: seq<string>, sep: char)
    requires pieces != []
    requires forall k :: 0 <= k < |pieces| ==> sep !in pieces[k]
    ensures SplitAll(Join(pieces, sep), sep) == pieces
    decreases |pieces|
  {
    var s := Join(pieces, sep);
    var p := pieces[0];
    if |pieces| == 1 {
      assert IndexOf(s, sep, 0) == -1;
    } else {
      assert s == p + [sep] + Join(pieces[1..], sep);
      assert s[|p|] == sep;
      assert forall i :: 0 <= i < |p| ==> s[i] == p[i];
      var i := IndexOf(s, sep, 0);
      assert i == |p|;
      assert s[i + 1..] == Join(pieces[1..], sep);
      assert s[..i] == p;
      SplitAllJoin(pieces[1..], sep);
      assert pieces == [p] + pieces[1..];
    }
  }

  function DropTrailingEmpty(pieces: seq<string>): (r: seq<string>)
    ensures |r| <= |pieces| && r == pieces[..|r|]
    ensures r != [] ==> r[|r| - 1] != []
  {
    if pieces != [] && pieces[|pieces| - 1] == [] then DropTrailingEmpty(pieces[..|pieces| - 1])
    else pieces
  }

  /** s without the run of sep characters at its end. */
  function TrimTrailing(s: string, sep: char): (r: string)
    ensures |r| <= |s| && r == s[..|r|]
    ensures r != [] ==> r[|r| - 1] != sep
  {
    if s != [] && s[|s| - 1] == sep then TrimTrailing(s[..|s| - 1], sep) else s
  }

  /**
   * String.split(regex) where regex matches exactly the character sep
   * (limit 0): an input without sep gives the input itself; otherwise the
   * pieces between the separators, with the empty pieces at the end dropped.
   */
  function Split(s: string, sep: char): seq<string>
  {
    if sep !in s then [s] else DropTrailingEmpty(SplitAll(s, sep))
  }

  lemma {:induction false} JoinDropTrailing(pieces: seq<string>, sep: char)
    requires pieces != []
    requires forall k :: 0 <= k < |pieces| ==> sep !in pieces[k]
    ensures Join(DropTrailingEmpty(pieces), sep) == TrimTrailing(Join(pieces, sep), sep)
    decreases |pieces|
  {
    var n := |pieces|;
    var last := pieces[n - 1];
    if n == 1 {
    } else {
      var front := pieces[..n - 1];
      assert pieces == front + [last];
      JoinSnoc(front, last, sep);
      if last == [] {
        assert Join(pieces, sep) == Join(front, sep) + [sep];
        assert (Join(front, sep) + [sep])[..|Join(front, sep)|] == Join(front, sep);
        JoinDropTrailing(front, sep);
      } else {
        assert last[|last| - 1] in last;
      }
    }
  }

  /**
   * What String.split promises: no piece contains the separator, and the
   * pieces joined back give the input less its trailing separators.
   */
  lemma SplitSpec(s: string, sep: char)
    ensures forall k :: 0 <= k < |Split(s, sep)| ==> sep !in Split(s, sep)[k]
    ensures Join(Split(s, sep), sep) == TrimTrailing(s, sep)
    ensures sep !in s ==> Split(s, sep) == [s]
    ensures sep in s && Split(s, sep) != [] ==> Split(s, sep)[|Split(s, sep)| - 1] != []
  {
    if sep in s {
      JoinDropTrailing(SplitAll(s, sep), sep);
    } else {
      if s != [] {
        assert s[|s| - 1] in s;
      }
    }
  }

  // ---------------------------------------------------------------
  // List.indexOf
  // ---------------------------------------------------------------

  /** The first index of xs holding x, or -1: List.indexOf, comparing with equals or, for objects without equals, by reference. */
  function FirstIndex<X(==)>(xs: seq<X>, x: X): (r: int)
    ensures r == -1 <==> x !in xs
    ensures r != -1 ==> 0 <= r < |xs| && xs[r] == x && x !in xs[..r]
  {
    if xs == [] then -1
    else if xs[0] == x then 0
    else
      var r := FirstIndex(xs[1..], x);
      if r == -1 then -1
      else
        assert xs[..r + 1] == [xs[0]] + xs[1..][..r];
        r + 1
  }

  /** Appending y finds y at its first old position, or at the end when it was absent. */
  lemma {:induction false} FirstIndexAppend<X>(xs: seq<X>, y: X)
    ensures FirstIndex(xs + [y], y) == if y in xs then FirstIndex(xs, y) else |xs|
  {
    if xs != [] && xs[0] != y {
      assert (xs + [y])[1..] == xs[1..] + [y];
      FirstIndexAppend(xs[1..], y);
    }
  }

  // ---------------------------------------------------------------
  // 32-bit and 64-bit integers
  // ---------------------------------------------------------------

  const TwoTo31: int := 0x8000_0000
  const TwoTo32: int := 0x1_0000_0000

  predicate IsInt32(x: int) {
    -TwoTo31 <= x < TwoTo31
  }

  newtype Int32 = x: int | -0x8000_0000 <= x < 0x8000_0000
  newtype Int64 = x: int | -0x8000_0000_0000_0000 <= x < 0x8000_0000_0000_0000

  /** The two's-complement wrap-around of Java int arithmetic. */
  function Wrap32(x: int): (r: int)
    ensures IsInt32(r)
    ensures IsInt32(x) ==> r == x
  {
    (x + TwoTo31) % TwoTo32 - TwoTo31
  }

  /** Adding to a wrapped value and wrapping again is wrapping the exact sum. */
  lemma WrapAdd(a: int, b: int)
    ensures Wrap32(Wrap32(a) + b) == Wrap32(a + b)
  {
    var x := a + TwoTo31;
    assert x == (x / TwoTo32) * TwoTo32 + x % TwoTo32;
  }

  // ---------------------------------------------------------------
  // Integer.toString / Long.toString and Integer.parseInt
  // ---------------------------------------------------------------

  predicate IsDigit(ch: char) {
    '0' <= ch <= '9'
  }

  function DigitChar(d: nat): (ch: char)
    requires d < 10
    ensures IsDigit(ch)
  {
    "0123456789"[d]
  }

  function DigitValue(ch: char): (d: nat)
    requires IsDigit(ch)
    ensures d < 10
  {
    (ch as int - '0' as int) as nat
  }

  /** The decimal digits of n, most significant first, without leading zeros. */
  function NatDigits(n: nat): (r: string)
    ensures r != [] && forall i :: 0 <= i < |r| ==> IsDigit(r[i])
  {
    if n < 10 then [DigitChar(n)] else NatDigits(n / 10) + [DigitChar(n % 10)]
  }

  /** Integer.toString(n) and Long.toString(n). */
  function DecimalString(n: int): (r: string)
    ensures r != []
    ensures IsTrimmed(r)
  {
    if n < 0 then "-" + NatDigits(-n) else NatDigits(n)
  }

  predicate AllDigits(s: string) {
    forall i :: 0 <= i < |s| ==> IsDigit(s[i])
  }

  function DigitsValue(s: string): nat
    requires AllDigits(s)
  {
    if s == [] then 0 else DigitsValue(s[..|s| - 1]) * 10 + DigitValue(s[|s| - 1])
  }

  /**
   * Integer.parseInt(s): an optional '+' or '-' and at least one decimal
   * digit, with a value inside the int range; anything else throws
   * NumberFormatException, the Failure here, carrying the rejected text.
   */
  function ParseInt(s: string): Result<int, string>
  {
    if s == [] then Failure(s)
    else
      var signed := s[0] == '-' || s[0] == '+';
      var digits := if signed then s[1..] else s;
      if digits == [] || !AllDigits(digits) then Failure(s)
      else
        var v: int := if s[0] == '-' then -(DigitsValue(digits) as int) else DigitsValue(digits);
        if IsInt32(v) then Success(v) else Failure(s)
  }

  lemma {:induction false} NatDigitsValue(n: nat)
    ensures DigitsValue(NatDigits(n)) == n
  {
    if n >= 10 {
      NatDigitsValue(n / 10);
      var r := NatDigits(n);
      assert r[..|r| - 1] == NatDigits(n / 10);
    }
  }

  /** Integer.parseInt reads the digits of a non-negative int back. */
  lemma ParseNatDigits(n: nat)
    requires IsInt32(n)
    ensures ParseInt(NatDigits(n)) == Success(n)
  {
    var s := NatDigits(n);
    NatDigitsValue(n);
    assert IsDigit(s[0]) && AllDigits(s);
  }

  /** Integer.parseInt reads a minus sign and the digits of m back as -m. */
  lemma ParseNegDigits(m: nat)
    requires IsInt32(-(m as int))
    ensures ParseInt("-" + NatDigits(m)) == Success(-(m as int))
  {
    var digits := NatDigits(m);
    assert AllDigits(digits);
    NatDigitsValue(m);
    var s := "-" + digits;
    assert s[0] == '-' && s[1..] == digits;
  }

  /** Integer.parseInt reads back what Integer.toString writes. */
  lemma ParseDecimal(n: int)
    requires IsInt32(n)
    ensures ParseInt(DecimalString(n)) == Success(n)
  {
    if n < 0 {
      var m: nat := -n;
      assert DecimalString(n) == "-" + NatDigits(m);
      ParseNegDigits(m);
    } else {
      assert DecimalString(n) == NatDigits(n);
      ParseNatDigits(n);
    }
  }
}
