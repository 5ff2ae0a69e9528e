/**
 * com.anode.tool.StringUtils: counting and locating a character, the
 * null-or-blank test, membership in a list, and the escape pair used by the
 * path tokenizer.
 */
module StringUtils {
  import opened Wrappers
  import opened JavaLang

  // ---------------------------------------------------------------
  // Occurrences of a character
  // ---------------------------------------------------------------

  /** The positions of s that hold c, in increasing order: the specification of getCount and getIndexOfChar. */
  function Positions(s: string, c: char): seq<nat>
  {
    if s == [] then []
    else Positions(s[..|s| - 1], c) + (if s[|s| - 1] == c then [|s| - 1] else [])
  }

  /** Positions lists exactly the positions holding c, in strictly increasing order. */
  lemma {:induction false} PositionsSpec(s: string, c: char)
    ensures var p := Positions(s, c);
      && (forall k :: 0 <= k < |p| ==> p[k] < |s| && s[p[k]] == c)
      && (forall k, l :: 0 <= k < l < |p| ==> p[k] < p[l])
      && (forall i :: 0 <= i < |s| && s[i] == c ==> i in p)
    decreases |s|
  {
    if s != [] {
      PositionsSpec(s[..|s| - 1], c);
    }
  }

  lemma PositionsStep(s: string, c: char, i: nat)
    requires i < |s|
    ensures Positions(s[..i + 1], c) == Positions(s[..i], c) + (if s[i] == c then [i] else [])
  {
    assert s[..i + 1][..i] == s[..i];
  }

  /** A stretch of s without c adds no position. */
  lemma {:induction false} PositionsSkip(s: string, c: char, a: nat, b: nat)
    requires a <= b <= |s|
    requires forall i :: a <= i < b ==> s[i] != c
    ensures Positions(s[..b], c) == Positions(s[..a], c)
    decreases b - a
  {
    if a < b {
      PositionsStep(s, c, b - 1);
      PositionsSkip(s, c, a, b - 1);
    }
  }

  /** The positions inside a prefix are a prefix of the positions. */
  lemma {:induction false} PositionsPrefix(s: string, c: char, j: nat)
    requires j <= |s|
    ensures |Positions(s[..j], c)| <= |Positions(s, c)|
    ensures Positions(s[..j], c) == Positions(s, c)[..|Positions(s[..j], c)|]
    decreases |s| - j
  {
    if j < |s| {
      var n := |s|;
      PositionsPrefix(s[..n - 1], c, j);
      assert s[..n - 1][..j] == s[..j];
    } else {
      assert s[..j] == s;
    }
  }

  /** A position holding c is the entry of Positions that follows those before it. */
  lemma PositionsHit(s: string, c: char, i: nat)
    requires i < |s| && s[i] == c
    ensures |Positions(s[..i], c)| < |Positions(s, c)|
    ensures Positions(s, c)[|Positions(s[..i], c)|] == i
  {
    PositionsStep(s, c, i);
    PositionsPrefix(s, c, i + 1);
  }

  /** getCount(s, c): the number of positions of s holding c. */
  function Count(s: string, c: char): nat {
    |Positions(s, c)|
  }

  method GetCount(s: string, c: char) returns (count: nat)
    ensures count == Count(s, c)
  {
    count := 0;
    var fromIndex := 0;
    while true
      invariant 0 <= fromIndex <= |s|
      invariant count == |Positions(s[..fromIndex], c)|
      decreases |s| - fromIndex
    {
      var index := IndexOf(s, c, fromIndex);
      IndexOfCounts(s, c, fromIndex);
      if index == -1 {
        break;
      }
      count := count + 1;
      if index == |s| - 1 {
        assert s[..index + 1] == s;
        break;
      }
      fromIndex := index + 1;
    }
  }

  /** Where the forward search of getCount and getIndexOfChar lands, counted in Positions. */
  lemma IndexOfCounts(s: string, c: char, from: nat)
    requires from <= |s|
    ensures var i := IndexOf(s, c, from);
      if i == -1 then |Positions(s[..from], c)| == Count(s, c)
      else
        && |Positions(s[..i + 1], c)| == |Positions(s[..from], c)| + 1
        && |Positions(s[..from], c)| < Count(s, c)
        && Positions(s, c)[|Positions(s[..from], c)|] == i
  {
    var i := IndexOf(s, c, from);
    if i == -1 {
      PositionsSkip(s, c, from, |s|);
      assert s[..|s|] == s;
    } else {
      PositionsSkip(s, c, from, i);
      PositionsHit(s, c, i);
      PositionsStep(s, c, i);
    }
  }

  /** Where the backward search of getIndexOfChar lands, counted in Positions. */
  lemma LastIndexOfCounts(s: string, c: char, from: int)
    requires -1 <= from < |s|
    ensures var i := LastIndexOf(s, c, from);
      if i == -1 then |Positions(s[..from + 1], c)| == 0
      else
        && |Positions(s[..i], c)| + 1 == |Positions(s[..from + 1], c)|
        && |Positions(s[..i], c)| < Count(s, c)
        && Positions(s, c)[|Positions(s[..i], c)|] == i
  {
    var i := LastIndexOf(s, c, from);
    if i == -1 {
      PositionsSkip(s, c, 0, from + 1);
    } else {
      PositionsSkip(s, c, i + 1, from + 1);
      PositionsHit(s, c, i);
      PositionsStep(s, c, i);
    }
  }

  /**
   * getIndexOfChar(s, c, occurrence, fromStart): the position of the
   * occurrence-th c counted from the start or from the end, or -1 when there
   * are fewer, when occurrence < 1, or when s is empty.
   */
  method GetIndexOfChar(s: string, c: char, occurrence: int, fromStart: bool) returns (index: int)
    ensures fromStart && 1 <= occurrence <= Count(s, c) ==> index == Positions(s, c)[occurrence - 1]
    ensures !fromStart && 1 <= occurrence <= Count(s, c) ==> index == Positions(s, c)[Count(s, c) - occurrence]
    ensures !(1 <= occurrence <= Count(s, c)) ==> index == -1
  {
    if |s| == 0 {
      return -1;
    }
    if fromStart {
      var count := 0;
      var fromIndex := 0;
      while true
        invariant 0 <= fromIndex <= |s|
        invariant count == |Positions(s[..fromIndex], c)|
        invariant occurrence < 1 || count < occurrence
        decreases |s| - fromIndex
      {
        index := IndexOf(s, c, fromIndex);
        IndexOfCounts(s, c, fromIndex);
        if index == -1 {
          break;
        }
        count := count + 1;
        if count == occurrence {
          break;
        }
        fromIndex := index + 1;
      }
    } else {
      var count := 0;
      var fromIndex := |s| - 1;
      assert s[..|s|] == s;
      while true
        invariant -1 <= fromIndex < |s|
        invariant |Positions(s[..fromIndex + 1], c)| + count == Count(s, c)
        invariant occurrence < 1 || count < occurrence
        decreases fromIndex + 1
      {
        index := LastIndexOf(s, c, fromIndex);
        LastIndexOfCounts(s, c, fromIndex);
        if index == -1 {
          break;
        }
        count := count + 1;
        if count == occurrence {
          break;
        }
        fromIndex := index - 1;
      }
    }
  }

  // ---------------------------------------------------------------
  // isNullOrEmpty and compareWithMany
  // ---------------------------------------------------------------

  /** isNullOrEmpty(s): s is null or nothing but characters up to U+0020. */
  function IsNullOrEmpty(s: Option<string>): (r: bool)
    ensures r <==> s.None? || forall i :: 0 <= i < |s.value| ==> IsTrimmable(s.value[i])
  {
    if s.None? then true
    else
      TrimEmptyIff(s.value);
      Trim(s.value) == []
  }

  /** compareWithMany(first, others...): first equals some element; false for a null array. */
  method CompareWithMany<T(==)>(first: T, others: Option<seq<T>>) returns (found: bool)
    ensures found <==> others.Some? && first in others.value
  {
    if others.None? {
      return false;
    }
    var elements := others.value;
    for i := 0 to |elements|
      invariant first !in elements[..i]
    {
      if first == elements[i] {
        return true;
      }
    }
    return false;
  }

  /** What the String overload of compareWithMany can throw: first.equals on a null first. */
  datatype CompareError = NullPointerException

  /**
   * The String overload of compareWithMany. Both first and the elements
   * may be null; equals is never true of a null argument, and a null first
   * throws as soon as there is an element to compare it with.
   */
  method CompareStringWithMany(first: Option<string>, others: Option<seq<Option<string>>>)
    returns (r: Result<bool, CompareError>)
    ensures others.None? ==> r == Success(false)
    ensures others.Some? && first.None? ==>
      r == if others.value == [] then Success(false) else Failure(NullPointerException)
    ensures others.Some? && first.Some? ==> r == Success(first in others.value)
  {
    if others.None? {
      return Success(false);
    }
    var elements := others.value;
    for i := 0 to |elements|
      invariant first.None? ==> i == 0
      invariant first !in elements[..i]
    {
      if first.None? {
        return Failure(NullPointerException);
      }
      if elements[i] == first {
        return Success(true);
      }
    }
    return Success(false);
  }

  // ---------------------------------------------------------------
  // removeEscapeChars / escapeChars
  // ---------------------------------------------------------------

  /** A character that escapeChars protects: one of chars, or the escape character itself. */
  predicate IsSpecial(x: char, ec: char, chars: seq<char>) {
    x in chars || x == ec
  }

  /** An escape character that removeEscapeChars drops: followed by a special character. */
  predicate IsDroppedAt(s: string, i: nat, ec: char, chars: seq<char>) {
    i + 1 < |s| && s[i] == ec && IsSpecial(s[i + 1], ec, chars)
  }

  /**
   * The character loop of removeEscapeChars: every position is examined in
   * turn (nothing is skipped after a drop), and a character is dropped
   * exactly when it is ec, is not the last one, and the next one is special.
   */
  function Unescape(s: string, ec: char, chars: seq<char>): (r: string)
    ensures |r| <= |s|
  {
    if |s| <= 1 then s
    else (if IsDroppedAt(s, 0, ec, chars) then "" else [s[0]]) + Unescape(s[1..], ec, chars)
  }

  /** The character loop of escapeChars: ec goes in front of every special character. */
  function Escape(s: string, ec: char, chars: seq<char>): (r: string)
    ensures |r| >= |s|
  {
    if s == [] then ""
    else (if IsSpecial(s[0], ec, chars) then [ec, s[0]] else [s[0]]) + Escape(s[1..], ec, chars)
  }

  /** One step of the removeEscapeChars loop: position i contributes nothing or s[i]. */
  lemma UnescapeStep(s: string, i: nat, ec: char, chars: seq<char>, done: string)
    requires i < |s|
    requires done + Unescape(s[i..], ec, chars) == Unescape(s, ec, chars)
    ensures (done + (if IsDroppedAt(s, i, ec, chars) then "" else [s[i]])) + Unescape(s[i + 1..], ec, chars)
         == Unescape(s, ec, chars)
  {
    var kept := if IsDroppedAt(s, i, ec, chars) then "" else [s[i]];
    UnescapeAt(s, i, ec, chars);
    assert done + Unescape(s[i..], ec, chars) == done + (kept + Unescape(s[i + 1..], ec, chars));
  }

  lemma UnescapeAt(s: string, i: nat, ec: char, chars: seq<char>)
    requires i < |s|
    ensures Unescape(s[i..], ec, chars)
         == (if IsDroppedAt(s, i, ec, chars) then "" else [s[i]]) + Unescape(s[i + 1..], ec, chars)
  {
    var t := s[i..];
    assert t[1..] == s[i + 1..];
    if |t| == 1 {
      assert s[i + 1..] == [];
    } else {
      assert t[0] == s[i] && t[1] == s[i + 1];
      assert IsDroppedAt(t, 0, ec, chars) == IsDroppedAt(s, i, ec, chars);
    }
  }

  /** One step of the escapeChars loop: position i contributes s[i], escaped when special. */
  lemma EscapeStep(s: string, i: nat, ec: char, chars: seq<char>, done: string)
    requires i < |s|
    requires done + Escape(s[i..], ec, chars) == Escape(s, ec, chars)
    ensures (done + (if IsSpecial(s[i], ec, chars) then [ec, s[i]] else [s[i]])) + Escape(s[i + 1..], ec, chars)
         == Escape(s, ec, chars)
  {
    assert s[i..][1..] == s[i + 1..];
  }

  /** The StringBuffer loop of removeEscapeChars, before the final trim. */
  method UnescapeLoop(s: string, ec: char, chars: seq<char>) returns (sb: string)
    ensures sb == Unescape(s, ec, chars)
  {
    sb := "";
    var size := |s|;
    for i := 0 to size
      invariant sb + Unescape(s[i..], ec, chars) == Unescape(s, ec, chars)
    {
      UnescapeStep(s, i, ec, chars, sb);
      ghost var before := sb;
      ghost var kept := if IsDroppedAt(s, i, ec, chars) then "" else [s[i]];
      if i == size - 1 {
        sb := sb + [s[i]];
      } else {
        var c := s[i];
        if c == ec {
          c := s[i + 1];
          var special := CompareWithMany(c, Some(chars));
          if special || c == ec {
            // the escape character is not copied
          } else {
            sb := sb + [s[i]];
          }
        } else {
          sb := sb + [s[i]];
        }
      }
      assert sb == before + kept;
    }
    assert s[size..] == [];
  }

  method RemoveEscapeChars(s: string, ec: char, chars: seq<char>) returns (r: string)
    ensures r == Trim(Unescape(s, ec, chars))
  {
    var sb := UnescapeLoop(s, ec, chars);
    r := Trim(sb);
  }

  /** The StringBuffer loop of escapeChars, before the final trim. */
  method EscapeLoop(s: string, ec: char, chars: seq<char>) returns (sb: string)
    ensures sb == Escape(s, ec, chars)
  {
    sb := "";
    var size := |s|;
    for i := 0 to size
      invariant sb + Escape(s[i..], ec, chars) == Escape(s, ec, chars)
    {
      EscapeStep(s, i, ec, chars, sb);
      ghost var before := sb;
      var c := s[i];
      var special := CompareWithMany(c, Some(chars));
      if special || c == ec {
        sb := sb + [ec];
      }
      sb := sb + [c];
      ghost var added := if IsSpecial(s[i], ec, chars) then [ec, s[i]] else [s[i]];
      assert sb == before + added;
    }
    assert s[size..] == [];
  }

  method EscapeChars(s: string, ec: char, chars: seq<char>) returns (r: string)
    ensures r == Trim(Escape(s, ec, chars))
  {
    var sb := EscapeLoop(s, ec, chars);
    r := Trim(sb);
  }

  // ---------------------------------------------------------------
  // What the escape pair does and does not promise
  // ---------------------------------------------------------------

  lemma UnescapeCons(a: char, t: string, ec: char, chars: seq<char>)
    requires t != []
    ensures Unescape([a] + t, ec, chars)
         == (if a == ec && IsSpecial(t[0], ec, chars) then "" else [a]) + Unescape(t, ec, chars)
  {
    assert ([a] + t)[1..] == t;
  }

  lemma EscapeHead(s: string, ec: char, chars: seq<char>)
    requires s != []
    ensures Escape(s, ec, chars) != []
    ensures IsSpecial(Escape(s, ec, chars)[0], ec, chars) <==> IsSpecial(s[0], ec, chars)
  {
  }

  /**
   * Decoding what escapeChars produced drops exactly what decoding the
   * original drops: removeEscapeChars(escapeChars(s)) undoes the added
   * escapes but also consumes every escape character of s that stands in
   * front of a special character.
   */
  lemma {:induction false} UnescapeEscape(s: string, ec: char, chars: seq<char>)
    ensures Unescape(Escape(s, ec, chars), ec, chars) == Unescape(s, ec, chars)
  {
    if s != [] {
      var x, rest := s[0], s[1..];
      assert s == [x] + rest;
      var er := Escape(rest, ec, chars);
      UnescapeEscape(rest, ec, chars);
      if rest == [] {
        assert er == [];
        if IsSpecial(x, ec, chars) {
          assert Escape(s, ec, chars) == [ec] + [x];
          UnescapeCons(ec, [x], ec, chars);
        }
      } else {
        EscapeHead(rest, ec, chars);
        UnescapeCons(x, er, ec, chars);
        UnescapeCons(x, rest, ec, chars);
        if IsSpecial(x, ec, chars) {
          assert Escape(s, ec, chars) == [ec] + ([x] + er);
          UnescapeCons(ec, [x] + er, ec, chars);
        } else {
          assert Escape(s, ec, chars) == [x] + er;
        }
      }
    }
  }

  /** No escape character of s stands in front of a special character. */
  predicate NoEscapePairs(s: string, ec: char, chars: seq<char>) {
    forall i :: 0 <= i < |s| - 1 ==> !IsDroppedAt(s, i, ec, chars)
  }

  /** Decoding leaves s unchanged exactly when no escape character of s stands in front of a special one. */
  lemma {:induction false} UnescapeIdentity(s: string, ec: char, chars: seq<char>)
    ensures Unescape(s, ec, chars) == s <==> NoEscapePairs(s, ec, chars)
  {
    if |s| > 1 {
      var t := s[1..];
      UnescapeIdentity(t, ec, chars);
      assert s == [s[0]] + t;
      if IsDroppedAt(s, 0, ec, chars) {
        assert |Unescape(s, ec, chars)| < |s|;
      } else {
        assert NoEscapePairs(s, ec, chars) <==> NoEscapePairs(t, ec, chars) by {
          forall i | 0 <= i < |t| - 1
            ensures IsDroppedAt(t, i, ec, chars) <==> IsDroppedAt(s, i + 1, ec, chars)
          {
          }
          if !NoEscapePairs(s, ec, chars) {
            var i :| 0 <= i < |s| - 1 && IsDroppedAt(s, i, ec, chars);
            assert i > 0 && IsDroppedAt(t, i - 1, ec, chars);
          }
        }
        if Unescape(s, ec, chars) == s {
          assert Unescape(t, ec, chars) == s[1..];
        }
      }
    }
  }

  lemma {:induction false} EscapeLast(s: string, ec: char, chars: seq<char>)
    requires s != []
    ensures Escape(s, ec, chars)[|Escape(s, ec, chars)| - 1] == s[|s| - 1]
  {
    if |s| > 1 {
      EscapeLast(s[1..], ec, chars);
    }
  }

  /**
   * Trimming the escaped form of a trimmed string changes nothing that
   * decoding keeps: the only character trim can remove is a leading ec
   * placed before a special first character, and decoding drops that ec
   * anyway.
   */
  lemma TrimEscapeDecodes(s: string, ec: char, chars: seq<char>)
    requires IsTrimmed(s)
    ensures Unescape(Trim(Escape(s, ec, chars)), ec, chars) == Unescape(Escape(s, ec, chars), ec, chars)
  {
    if s != [] {
      if IsSpecial(s[0], ec, chars) && IsTrimmable(ec) {
        BlankEscapeDecodes(s, ec, chars);
      } else {
        EscapeKeepsTrimmed(s, ec, chars);
        TrimNoop(Escape(s, ec, chars));
      }
    }
  }

  /** A blank ec put in front of a special first character is trimmed away, and decoding would drop it anyway. */
  lemma BlankEscapeDecodes(s: string, ec: char, chars: seq<char>)
    requires IsTrimmed(s) && s != []
    requires IsSpecial(s[0], ec, chars) && IsTrimmable(ec)
    ensures Unescape(Trim(Escape(s, ec, chars)), ec, chars) == Unescape(Escape(s, ec, chars), ec, chars)
  {
    var e := Escape(s, ec, chars);
    var t := [s[0]] + Escape(s[1..], ec, chars);
    assert e == [ec] + t;
    assert e[1..] == t;
    EscapeLast(s, ec, chars);
    assert t[|t| - 1] == e[|e| - 1];
    TrimDropsBlank(e);
    UnescapeCons(ec, t, ec, chars);
  }

  /** Escaping keeps a trimmed string trimmed unless it puts a blank ec in front. */
  lemma EscapeKeepsTrimmed(s: string, ec: char, chars: seq<char>)
    requires IsTrimmed(s) && s != []
    requires !(IsSpecial(s[0], ec, chars) && IsTrimmable(ec))
    ensures IsTrimmed(Escape(s, ec, chars))
  {
    var e := Escape(s, ec, chars);
    var head := if IsSpecial(s[0], ec, chars) then [ec, s[0]] else [s[0]];
    assert e == head + Escape(s[1..], ec, chars);
    assert e[0] == head[0];
    EscapeLast(s, ec, chars);
  }

  /**
   * The round trip removeEscapeChars(escapeChars(s)) == s holds when s has
   * no trimmable character at either end and no escape character of s stands
   * in front of a special character, whatever the escape character.
   */
  lemma EscapeRoundTrip(s: string, ec: char, chars: seq<char>)
    requires IsTrimmed(s)
    requires NoEscapePairs(s, ec, chars)
    ensures Trim(Unescape(Trim(Escape(s, ec, chars)), ec, chars)) == s
  {
    TrimEscapeDecodes(s, ec, chars);
    UnescapeEscape(s, ec, chars);
    UnescapeIdentity(s, ec, chars);
    TrimNoop(s);
  }

  /** The common case: without escape characters in s, the round trip is exact. */
  lemma EscapeRoundTripNoEscapeChar(s: string, ec: char, chars: seq<char>)
    requires IsTrimmed(s)
    requires ec !in s
    ensures Trim(Unescape(Trim(Escape(s, ec, chars)), ec, chars)) == s
  {
    assert NoEscapePairs(s, ec, chars) by {
      forall i | 0 <= i < |s| - 1 ensures !IsDroppedAt(s, i, ec, chars) {
        assert s[i] in s;
      }
    }
    EscapeRoundTrip(s, ec, chars);
  }

  /** With a blank escape character: ".a" escapes to " .a", trims to ".a" and decodes back. */
  lemma BlankEscapeRoundTrip()
    ensures Escape(".a", ' ', ".") == " .a"
    ensures Trim(Unescape(Trim(Escape(".a", ' ', ".")), ' ', ".")) == ".a"
  {
    assert Escape(".a", ' ', ".") == " .a";
    EscapeRoundTripNoEscapeChar(".a", ' ', ".");
  }

  /** And where it fails: the two characters \. escape to \\\. and decode to a lone dot. */
  lemma EscapedEscapeIsLost()
    ensures Escape("\\.", '\\', ".[]=") == "\\\\\\."
    ensures Trim(Unescape(Trim(Escape("\\.", '\\', ".[]=")), '\\', ".[]=")) == "."
  {
    var e := "\\\\\\.";
    assert Escape("\\.", '\\', ".[]=") == e;
    TrimNoop(e);
    assert Unescape(e, '\\', ".[]=") == ".";
    TrimNoop(".");
  }

  /** Every character of chars in an escaped string is preceded by ec, so the tokenizer sees it as escaped. */
  lemma {:induction false} EscapeGuardsReserved(s: string, ec: char, chars: seq<char>, j: nat)
    requires j < |Escape(s, ec, chars)|
    requires Escape(s, ec, chars)[j] in chars && Escape(s, ec, chars)[j] != ec
    ensures j > 0 && Escape(s, ec, chars)[j - 1] == ec
  {
    var e := Escape(s, ec, chars);
    var head := if IsSpecial(s[0], ec, chars) then [ec, s[0]] else [s[0]];
    var er := Escape(s[1..], ec, chars);
    assert e == head + er;
    if j >= |head| {
      assert er[j - |head|] == e[j];
      EscapeGuardsReserved(s[1..], ec, chars, j - |head|);
    }
  }
}
