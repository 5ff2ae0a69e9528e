/**
 * com.anode.tool.document.Parser: turns a document path such as
 * `$.a.b[2].c[k=v].d[]` into tokens. The first two characters are skipped,
 * the rest is cut at every '.' not preceded by a backslash, and each piece
 * becomes a plain token or one of the three array tokens. Names, keys,
 * values and indices are escape-decoded with removeEscapeChars and trimmed.
 * Where Java throws (charAt or substring out of range, parseInt), the model
 * returns a Failure.
 */
module Parser {
  import opened Wrappers
  import opened JavaLang
  import opened StringUtils
  import opened Tokens

  /** The escape character of document paths. */
  const Esc: char := '\\'

  /** The characters a path escapes: the varargs passed to removeEscapeChars. */
  const Reserved: seq<char> := ".[]="

  /** The exceptions getTokens can throw. */
  datatype PathError =
    | BracketAtEnd          // charAt(first + 1) past the end: nothing after '['
    | NoClosingBracket      // substring(first + 1, lastIndexOf(']')) with no ']' after '['
    | BadIndex(text: string) // Integer.parseInt rejected the decoded index text

  /** removeEscapeChars(x, '\\', '.', '[', ']', '='), which also trims. */
  function Decode(x: string): string
  {
    Trim(Unescape(x, Esc, Reserved))
  }

  // ---------------------------------------------------------------
  // isEscaped and isPresent
  // ---------------------------------------------------------------

  /** isEscaped(s, pos, ec): only the one character before pos is looked at. */
  function IsEscaped(s: string, pos: nat, ec: char): bool
    requires pos <= |s|
  {
    if pos == 0 then false else s[pos - 1] == ec
  }

  predicate IsUnescapedAt(s: string, i: nat, symbol: char)
  {
    i < |s| && s[i] == symbol && !IsEscaped(s, i, Esc)
  }

  /** The first position at or after start holding symbol without a backslash before it, or -1. */
  function FirstUnescaped(s: string, symbol: char, start: nat): (r: int)
    ensures r == -1 || (start <= r < |s| && IsUnescapedAt(s, r, symbol))
    ensures r == -1 ==> forall i :: start <= i < |s| ==> !IsUnescapedAt(s, i, symbol)
    ensures r != -1 ==> forall i :: start <= i < r ==> !IsUnescapedAt(s, i, symbol)
    decreases |s| - start
  {
    if start >= |s| then -1
    else if IsUnescapedAt(s, start, symbol) then start
    else FirstUnescaped(s, symbol, start + 1)
  }

  /** Stepping over positions that do not count leaves the search result unchanged. */
  lemma {:induction false} FirstUnescapedSkip(s: string, symbol: char, a: nat, b: nat)
    requires a <= b <= |s|
    requires forall i :: a <= i < b ==> !IsUnescapedAt(s, i, symbol)
    ensures FirstUnescaped(s, symbol, a) == FirstUnescaped(s, symbol, b)
    decreases b - a
  {
    if a < b {
      FirstUnescapedSkip(s, symbol, a + 1, b);
    }
  }

  /** isPresent(s, symbol): indexOf from start, stepping past every escaped hit. */
  method IsPresent(s: string, symbol: char) returns (pos: int)
    ensures pos == FirstUnescaped(s, symbol, 0)
  {
    pos := -1;
    var start := 0;
    while true
      invariant 0 <= start <= |s|
      invariant pos == -1
      invariant FirstUnescaped(s, symbol, start) == FirstUnescaped(s, symbol, 0)
      decreases |s| - start
    {
      if start >= |s| {
        break;
      }
      var i := IndexOf(s, symbol, start);
      if i != -1 {
        FirstUnescapedSkip(s, symbol, start, i);
        if IsEscaped(s, i, Esc) == false {
          pos := i;
          break;
        } else {
          start := i + 1;
        }
      } else {
        FirstUnescapedSkip(s, symbol, start, |s|);
        break;
      }
    }
  }

  // ---------------------------------------------------------------
  // getStringTokens
  // ---------------------------------------------------------------

  /** A '.' at or after position 2 that is not preceded by a backslash: where getStringTokens cuts. */
  predicate IsSeparator(s: string, i: nat)
  {
    2 <= i < |s| && s[i] == '.' && !IsEscaped(s, i, Esc)
  }

  /**
   * The pieces getStringTokens still adds when the current piece starts at
   * from and the scan is at i.
   */
  function Pieces(s: string, from: nat, i: nat): (r: seq<string>)
    requires from <= i
    ensures from < |s| ==> r != []
    decreases |s| - i
  {
    if i >= |s| then (if from < |s| then [s[from..]] else [])
    else if s[i] == '.' && !IsEscaped(s, i, Esc) then [s[from..i]] + Pieces(s, i + 1, i + 1)
    else Pieces(s, from, i + 1)
  }

  /** getStringTokens(s): the pieces of s after its first two characters. */
  function StringTokens(s: string): seq<string>
  {
    Pieces(s, 2, 2)
  }

  method GetStringTokens(s: string) returns (paths: seq<string>)
    ensures paths == StringTokens(s)
  {
    paths := [];
    var from := 2;
    var i := 2;
    while i < |s|
      invariant 2 <= from <= i
      invariant paths + Pieces(s, from, i) == StringTokens(s)
      decreases |s| - i
    {
      var c := s[i];
      if c == '.' {
        if IsEscaped(s, i, Esc) == false {
          paths := paths + [s[from..i]];
          from := i + 1;
        }
      }
      i := i + 1;
    }
    if from < |s| {
      paths := paths + [s[from..]];
    }
  }

  /** A path of at most two characters has no pieces. */
  lemma ShortPathHasNoPieces(s: string)
    requires |s| <= 2
    ensures StringTokens(s) == []
  {
  }

  /** "." when s ends with a separator, which getStringTokens drops; otherwise "". */
  function TrailingSeparator(s: string): string
  {
    if |s| > 0 && IsSeparator(s, |s| - 1) then "." else ""
  }

  lemma {:induction false} JoinPieces(s: string, from: nat, i: nat)
    requires 2 <= from <= i <= |s| && from < |s|
    requires forall j :: from <= j < i ==> !IsSeparator(s, j)
    ensures Join(Pieces(s, from, i), '.') + TrailingSeparator(s) == s[from..]
    decreases |s| - i
  {
    if i == |s| {
      assert !IsSeparator(s, |s| - 1);
      assert Pieces(s, from, i) == [s[from..]];
    } else if s[i] == '.' && !IsEscaped(s, i, Esc) {
      JoinPiecesAtSeparator(s, from, i);
    } else {
      assert !IsSeparator(s, i);
      JoinPieces(s, from, i + 1);
    }
  }

  lemma {:induction false} JoinPiecesAtSeparator(s: string, from: nat, i: nat)
    requires 2 <= from <= i < |s|
    requires IsSeparator(s, i)
    ensures Join(Pieces(s, from, i), '.') + TrailingSeparator(s) == s[from..]
    decreases |s| - i, 0
  {
    var head := s[from..i];
    assert Pieces(s, from, i) == [head] + Pieces(s, i + 1, i + 1);
    if i + 1 == |s| {
      assert TrailingSeparator(s) == ".";
      assert s[from..] == head + ".";
    } else {
      JoinPieces(s, i + 1, i + 1);
      var rest := Pieces(s, i + 1, i + 1);
      assert rest != [];
      var tail := Join(rest, '.');
      assert Join([head] + rest, '.') == head + "." + tail by {
        assert ([head] + rest)[1..] == rest;
      }
      var t := TrailingSeparator(s);
      assert tail + t == s[i + 1..];
      assert (head + "." + tail) + t == head + "." + (tail + t);
      assert s[from..] == head + "." + s[i + 1..];
    }
  }

  /**
   * The pieces, joined back with '.', give everything after the first two
   * characters, less a final separator: getStringTokens loses no character
   * but the separators and a trailing dot.
   */
  lemma StringTokensJoin(s: string)
    requires |s| > 2
    ensures Join(StringTokens(s), '.') + TrailingSeparator(s) == s[2..]
  {
    JoinPieces(s, 2, 2);
  }

  /** No separator inside [i, k): the scan just moves on. */
  lemma {:induction false} PiecesSkip(s: string, from: nat, i: nat, k: nat)
    requires from <= i <= k <= |s|
    requires forall j :: i <= j < k ==> !(s[j] == '.' && !IsEscaped(s, j, Esc))
    ensures Pieces(s, from, i) == Pieces(s, from, k)
    decreases k - i
  {
    if i < k {
      PiecesSkip(s, from, i + 1, k);
    }
  }

  /** A piece that getStringTokens hands back unchanged: each of its dots is escaped. */
  predicate DotsEscaped(p: string)
  {
    forall j :: 0 <= j < |p| && p[j] == '.' ==> j > 0 && p[j - 1] == Esc
  }

  /** Pieces that getStringTokens recovers from their join. */
  predicate Separable(ps: seq<string>)
  {
    && ps != []
    && ps[|ps| - 1] != []
    && (forall k :: 0 <= k < |ps| ==> DotsEscaped(ps[k]))
    && (forall k :: 0 <= k < |ps| - 1 && ps[k] != [] ==> ps[k][|ps[k]| - 1] != Esc)
  }

  lemma {:induction false} PiecesOfJoin(s: string, from: nat, ps: seq<string>)
    requires 2 <= from <= |s| && s[from..] == Join(ps, '.')
    requires s[from - 1] != Esc
    requires Separable(ps)
    ensures Pieces(s, from, from) == ps
    decreases |ps|
  {
    var p := ps[0];
    var k := from + |p|;
    assert s[from..k] == p by {
      if |ps| > 1 {
        assert s[from..] == p + "." + Join(ps[1..], '.');
      }
    }
    forall j | from <= j < k
      ensures !(s[j] == '.' && !IsEscaped(s, j, Esc))
    {
      assert s[j] == p[j - from];
      if s[j] == '.' {
        assert DotsEscaped(p);
        assert s[j - 1] == p[j - from - 1];
      }
    }
    PiecesSkip(s, from, from, k);
    if |ps| == 1 {
      assert k == |s|;
    } else {
      var rest := ps[1..];
      assert s[from..] == p + "." + Join(rest, '.');
      assert s[k] == '.';
      if p != [] {
        assert s[k - 1] == p[|p| - 1];
      }
      assert !IsEscaped(s, k, Esc);
      assert s[k + 1..] == Join(rest, '.');
      assert Separable(rest) by {
        forall t | 0 <= t < |rest| ensures DotsEscaped(rest[t]) {
          assert rest[t] == ps[t + 1];
        }
        forall t | 0 <= t < |rest| - 1 && rest[t] != [] ensures rest[t][|rest[t]| - 1] != Esc {
          assert rest[t] == ps[t + 1];
        }
      }
      PiecesOfJoin(s, k + 1, rest);
      assert ps == [p] + rest;
    }
  }

  /** getStringTokens takes "$." + the pieces joined with '.' apart into exactly those pieces. */
  lemma StringTokensOfJoin(ps: seq<string>)
    requires Separable(ps)
    ensures StringTokens("$." + Join(ps, '.')) == ps
  {
    var s := "$." + Join(ps, '.');
    assert s[2..] == Join(ps, '.');
    PiecesOfJoin(s, 2, ps);
  }

  // ---------------------------------------------------------------
  // getArrayToken and the token of one piece
  // ---------------------------------------------------------------

  /**
   * getArrayToken(s, first, isLeaf), first being the unescaped '[':
   * `name[]`, `name[key=value]` (cut at the first unescaped '=') or
   * `name[index]`. The body runs to the LAST ']' of the piece.
   */
  function ArrayTokenOf(s: string, first: nat, isLeaf: bool): Result<Token, PathError>
    requires first < |s|
  {
    var name := Decode(s[..first]);
    if first + 1 >= |s| then Failure(BracketAtEnd)
    else if s[first + 1] == ']' then Success(ArrayAll(name, isLeaf))
    else
      var close := LastIndexOf(s, ']', |s| - 1);
      if close < first + 1 then Failure(NoClosingBracket)
      else
        var body := s[first + 1..close];
        var eq := FirstUnescaped(body, '=', 0);
        if eq != -1 then Success(ArrayFilter(name, Decode(body[..eq]), Decode(body[eq + 1..]), isLeaf))
        else
          match ParseInt(Decode(body))
          case Success(n) => Success(ArrayIndex(name, n, isLeaf))
          case Failure(text) => Failure(BadIndex(text))
  }

  /** The token of one piece: an array token when it holds an unescaped '[', else a plain one. */
  function TokenOf(piece: string, isLeaf: bool): Result<Token, PathError>
  {
    var first := FirstUnescaped(piece, '[', 0);
    if first == -1 then Success(Plain(Decode(piece), isLeaf))
    else ArrayTokenOf(piece, first, isLeaf)
  }

  method GetArrayToken(s: string, first: nat, isLeaf: bool) returns (at: Result<Token, PathError>)
    requires first < |s|
    ensures at == ArrayTokenOf(s, first, isLeaf)
  {
    var name := RemoveEscapeChars(s[..first], Esc, Reserved);
    if first + 1 >= |s| {
      return Failure(BracketAtEnd);
    }
    if s[first + 1] == ']' {
      return Success(ArrayAll(name, isLeaf));
    }
    var pos := LastIndexOf(s, ']', |s| - 1);
    if pos < first + 1 {
      return Failure(NoClosingBracket);
    }
    var body := s[first + 1..pos];
    pos := IsPresent(body, '=');
    if pos != -1 {
      var key := RemoveEscapeChars(body[..pos], Esc, Reserved);
      var value := RemoveEscapeChars(body[pos + 1..], Esc, Reserved);
      at := Success(ArrayFilter(name, key, value, isLeaf));
    } else {
      body := RemoveEscapeChars(body, Esc, Reserved);
      var n := ParseInt(body);
      if n.Failure? {
        return Failure(BadIndex(n.error));
      }
      at := Success(ArrayIndex(name, n.value, isLeaf));
    }
  }

  /** Text added after a string does not move a search hit found inside it. */
  lemma FirstUnescapedExtend(p: string, tail: string, symbol: char)
    requires FirstUnescaped(p, symbol, 0) != -1
    ensures FirstUnescaped(p + tail, symbol, 0) == FirstUnescaped(p, symbol, 0)
  {
    var r := FirstUnescaped(p, symbol, 0);
    var s := p + tail;
    forall i | 0 <= i <= r
      ensures IsUnescapedAt(s, i, symbol) == IsUnescapedAt(p, i, symbol)
    {
      assert s[i] == p[i];
      if i > 0 {
        assert s[i - 1] == p[i - 1];
      }
    }
    FirstUnescapedSkip(s, symbol, 0, r);
  }

  /** Two pieces that agree on the name, the character after '[', and the body agree on their array token. */
  lemma ArrayTokenOfSameParts(s: string, p: string, first: nat, close: int, isLeaf: bool)
    requires first + 1 < |s| && first + 1 < |p|
    requires s[..first] == p[..first] && s[first + 1] == p[first + 1]
    requires close == LastIndexOf(s, ']', |s| - 1) == LastIndexOf(p, ']', |p| - 1)
    requires close >= first + 1 ==> s[first + 1..close] == p[first + 1..close]
    ensures ArrayTokenOf(s, first, isLeaf) == ArrayTokenOf(p, first, isLeaf)
  {
  }

  /**
   * Whatever follows the last ']' of an array piece is ignored, as long as
   * it holds no ']' itself: the body ends at the last ']'.
   */
  lemma TrailingTextIgnored(p: string, tail: string, isLeaf: bool)
    requires FirstUnescaped(p, '[', 0) != -1
    requires p[|p| - 1] == ']'
    requires ']' !in tail
    ensures TokenOf(p + tail, isLeaf) == TokenOf(p, isLeaf)
  {
    var s := p + tail;
    var first := FirstUnescaped(p, '[', 0);
    FirstUnescapedExtend(p, tail, '[');
    assert first + 1 < |p|;
    assert s[..first] == p[..first];
    assert s[first + 1] == p[first + 1];
    var close := LastIndexOf(s, ']', |s| - 1);
    LastBracketExtend(p, tail);
    assert close >= first + 1 ==> s[first + 1..close] == p[first + 1..close];
    ArrayTokenOfSameParts(s, p, first, close, isLeaf);
  }

  lemma LastBracketExtend(p: string, tail: string)
    requires p != [] && p[|p| - 1] == ']'
    requires ']' !in tail
    ensures LastIndexOf(p + tail, ']', |p + tail| - 1) == |p| - 1
    ensures LastIndexOf(p, ']', |p| - 1) == |p| - 1
  {
    var s := p + tail;
    var close := LastIndexOf(s, ']', |s| - 1);
    assert s[|p| - 1] == ']';
    forall i | |p| <= i < |s|
      ensures s[i] != ']'
    {
      assert s[i] == tail[i - |p|];
    }
  }

  // ---------------------------------------------------------------
  // getTokens
  // ---------------------------------------------------------------

  /**
   * The tokens of the first n pieces, the last of all pieces being the
   * leaf, or the error of the first piece that fails: getTokens(list)
   * stops at the first exception. The token of one piece is passed in as
   * tokenOf, so that the facts below hold whatever a piece turns into.
   */
  function TokensUpTo(tokenOf: (string, bool) -> Result<Token, PathError>, pieces: seq<string>, n: nat)
    : Result<seq<Token>, PathError>
    requires n <= |pieces|
  {
    if n == 0 then Success([])
    else
      match TokensUpTo(tokenOf, pieces, n - 1)
      case Failure(e) => Failure(e)
      case Success(ts) =>
        match tokenOf(pieces[n - 1], n - 1 == |pieces| - 1)
        case Failure(e) => Failure(e)
        case Success(t) => Success(ts + [t])
  }

  /**
   * getTokens(list) succeeds exactly when every piece gives a token, and
   * then holds those tokens, one per piece, in order.
   */
  lemma {:induction false} TokensUpToSpec(tokenOf: (string, bool) -> Result<Token, PathError>, pieces: seq<string>, n: nat)
    requires n <= |pieces|
    ensures var r := TokensUpTo(tokenOf, pieces, n);
      && (r.Success? <==> forall k :: 0 <= k < n ==> tokenOf(pieces[k], k == |pieces| - 1).Success?)
      && (r.Success? ==> |r.value| == n)
      && (r.Success? ==> forall k :: 0 <= k < n ==> r.value[k] == tokenOf(pieces[k], k == |pieces| - 1).value)
  {
    if n > 0 {
      TokensUpToSpec(tokenOf, pieces, n - 1);
    }
  }

  /** Piece k is the first to throw, and it throws e. */
  predicate FailsFirstAt(tokenOf: (string, bool) -> Result<Token, PathError>, pieces: seq<string>, k: nat, e: PathError)
    requires k < |pieces|
  {
    && (forall j :: 0 <= j < k ==> tokenOf(pieces[j], j == |pieces| - 1).Success?)
    && tokenOf(pieces[k], k == |pieces| - 1) == Failure(e)
  }

  /** A successful getTokens(list) over the first n pieces means each of them gave a token. */
  lemma {:induction false} TokensUpToPrefix(tokenOf: (string, bool) -> Result<Token, PathError>, pieces: seq<string>, n: nat)
    requires n <= |pieces|
    requires TokensUpTo(tokenOf, pieces, n).Success?
    ensures forall j :: 0 <= j < n ==> tokenOf(pieces[j], j == |pieces| - 1).Success?
  {
    if n > 0 {
      TokensUpToPrefix(tokenOf, pieces, n - 1);
    }
  }

  /**
   * A failed getTokens(list) carries the error of the first piece that
   * throws: every piece before it gives a token, and that piece fails with
   * exactly this error.
   */
  lemma {:induction false} TokensUpToFirstFailure(tokenOf: (string, bool) -> Result<Token, PathError>, pieces: seq<string>, n: nat)
    requires n <= |pieces|
    requires TokensUpTo(tokenOf, pieces, n).Failure?
    ensures exists k :: 0 <= k < n && FailsFirstAt(tokenOf, pieces, k, TokensUpTo(tokenOf, pieces, n).error)
  {
    var prev := TokensUpTo(tokenOf, pieces, n - 1);
    if prev.Failure? {
      assert TokensUpTo(tokenOf, pieces, n) == prev;
      TokensUpToFirstFailure(tokenOf, pieces, n - 1);
      var k :| 0 <= k < n - 1 && FailsFirstAt(tokenOf, pieces, k, prev.error);
      assert 0 <= k < n;
    } else {
      TokensUpToPrefix(tokenOf, pieces, n - 1);
      assert FailsFirstAt(tokenOf, pieces, n - 1, TokensUpTo(tokenOf, pieces, n).error);
    }
  }

  /** Once a piece has failed, the error stays the result. */
  lemma {:induction false} TokensUpToFailure(tokenOf: (string, bool) -> Result<Token, PathError>, pieces: seq<string>, n: nat, m: nat)
    requires n <= m <= |pieces|
    requires TokensUpTo(tokenOf, pieces, n).Failure?
    ensures TokensUpTo(tokenOf, pieces, m) == TokensUpTo(tokenOf, pieces, n)
    decreases m - n
  {
    if n < m {
      TokensUpToFailure(tokenOf, pieces, n, m - 1);
    }
  }

  /** When every piece gives its token, the result is those tokens. */
  lemma TokensUpToAll(tokenOf: (string, bool) -> Result<Token, PathError>, pieces: seq<string>, ts: seq<Token>)
    requires |ts| == |pieces|
    requires forall k :: 0 <= k < |pieces| ==> tokenOf(pieces[k], k == |pieces| - 1) == Success(ts[k])
    ensures TokensUpTo(tokenOf, pieces, |pieces|) == Success(ts)
  {
    TokensUpToSpec(tokenOf, pieces, |pieces|);
    var r := TokensUpTo(tokenOf, pieces, |pieces|);
    assert r.Success?;
    assert r.value == ts;
  }

  /** getTokens(list). */
  function TokensOf(pieces: seq<string>): Result<seq<Token>, PathError>
  {
    TokensUpTo(TokenOf, pieces, |pieces|)
  }

  /** getTokens(path). */
  function TokensOfPath(path: string): Result<seq<Token>, PathError>
  {
    TokensOf(StringTokens(path))
  }

  method GetTokensOfPieces(strTokens: seq<string>) returns (r: Result<seq<Token>, PathError>)
    ensures r == TokensOf(strTokens)
  {
    var tokens := [];
    var size := |strTokens|;
    for i := 0 to size
      invariant TokensUpTo(TokenOf, strTokens, i) == Success(tokens)
    {
      var strToken := strTokens[i];
      var isLeaf := false;
      if i == size - 1 {
        isLeaf := true;
      }
      var first := IsPresent(strToken, '[');
      var t;
      if first != -1 {
        t := GetArrayToken(strToken, first, isLeaf);
      } else {
        var s := RemoveEscapeChars(strToken, Esc, Reserved);
        t := Success(Plain(s, isLeaf));
      }
      if t.Failure? {
        TokensUpToFailure(TokenOf, strTokens, i + 1, size);
        return Failure(t.error);
      }
      tokens := tokens + [t.value];
    }
    r := Success(tokens);
  }

  method GetTokens(path: string) returns (r: Result<seq<Token>, PathError>)
    ensures r == TokensOfPath(path)
  {
    var strTokens := GetStringTokens(path);
    r := GetTokensOfPieces(strTokens);
  }

  /**
   * A successful parse has one token per piece, and exactly the last one
   * is the leaf.
   */
  lemma TokensShape(path: string)
    requires TokensOfPath(path).Success?
    ensures |TokensOfPath(path).value| == |StringTokens(path)|
    ensures forall k :: 0 <= k < |TokensOfPath(path).value| ==>
      (TokensOfPath(path).value[k].isLeaf <==> k == |StringTokens(path)| - 1)
  {
    var ps := StringTokens(path);
    TokensUpToSpec(TokenOf, ps, |ps|);
    forall k | 0 <= k < |ps|
      ensures TokenOf(ps[k], k == |ps| - 1).value.isLeaf == (k == |ps| - 1)
    {
      TokenLeaf(ps[k], k == |ps| - 1);
    }
  }

  /** Every token carries the leaf flag it was built with. */
  lemma TokenLeaf(piece: string, isLeaf: bool)
    requires TokenOf(piece, isLeaf).Success?
    ensures TokenOf(piece, isLeaf).value.isLeaf == isLeaf
  {
  }

  // ---------------------------------------------------------------
  // Worked paths
  // ---------------------------------------------------------------

  /** Empty pieces between two dots are kept. */
  lemma EmptyPieceKept(path: string, ps: seq<string>)
    requires path == "$.a..b" && ps == ["a", "", "b"]
    ensures StringTokens(path) == ps
  {
    assert Join(ps[2..], '.') == "b";
    assert ps[1..][1..] == ps[2..];
    assert Join(ps[1..], '.') == "" + "." + "b";
    assert Join(ps, '.') == "a" + "." + ".b";
    assert Separable(ps);
    StringTokensOfJoin(ps);
    assert path == "$." + Join(ps, '.');
  }

  /** The empty piece after a final dot is not kept. */
  lemma TrailingDotDropped(path: string)
    requires path == "$.a."
    ensures StringTokens(path) == ["a"]
  {
    assert Pieces(path, 2, 2) == Pieces(path, 2, 3);
    assert IsEscaped(path, 3, Esc) == false;
    assert Pieces(path, 2, 3) == [path[2..3]] + Pieces(path, 4, 4);
    assert path[2..3] == "a";
  }

  /** isEscaped only looks one character back: in a\\.b the dot is taken as escaped. */
  lemma EscapedBackslashStillEscapesDot()
    ensures StringTokens("$.a\\\\.b") == ["a\\\\.b"]
  {
    var ps := ["a\\\\.b"];
    StringTokensOfJoin(ps);
  }

  lemma DecodeLetter(x: string)
    requires |x| == 1 && !IsTrimmable(x[0])
    ensures Decode(x) == x
  {
    TrimNoop(x);
  }

  /** Integer.parseInt of one character: a digit reads as its value, anything else throws. */
  lemma ParseOneChar(d: char)
    ensures IsDigit(d) ==> ParseInt([d]) == Success(DigitValue(d))
    ensures !IsDigit(d) ==> ParseInt([d]) == Failure([d])
  {
    if IsDigit(d) {
      assert AllDigits([d]);
      assert [d][..0] == [];
      assert DigitsValue([d]) == DigitValue(d);
    }
  }

  /** A character that can name an array piece by itself: not blank, not '[' and not the escape character. */
  predicate NameChar(n: char) {
    !IsTrimmable(n) && n != '[' && n != Esc
  }

  /** A one-character name followed by '[': the first unescaped '[' is at 1. */
  lemma BracketAfterName(p: string)
    requires |p| >= 2 && p[0] != '[' && p[0] != Esc && p[1] == '['
    ensures FirstUnescaped(p, '[', 0) == 1
  {
    assert !IsUnescapedAt(p, 0, '[');
    assert IsUnescapedAt(p, 1, '[');
  }

  /** A piece ending in ']' has its last ']' at its end. */
  lemma LastBracketAtEnd(p: string)
    requires p != [] && p[|p| - 1] == ']'
    ensures LastIndexOf(p, ']', |p| - 1) == |p| - 1
  {
  }

  /** A text without the symbol has no unescaped occurrence of it. */
  lemma NotPresent(s: string, symbol: char)
    requires symbol !in s
    ensures FirstUnescaped(s, symbol, 0) == -1
  {
  }

  /** The token of a piece whose first unescaped '[' is followed by ']'. */
  lemma AllTokenOf(p: string, first: nat, n: string, isLeaf: bool)
    requires FirstUnescaped(p, '[', 0) == first
    requires first + 1 < |p| && p[first + 1] == ']' && Decode(p[..first]) == n
    ensures TokenOf(p, isLeaf) == Success(ArrayAll(n, isLeaf))
  {
  }

  /** The token of a piece whose array body, up to its last ']', holds no '=' and reads as an int. */
  lemma IndexTokenOf(p: string, first: nat, close: nat, n: int, isLeaf: bool)
    requires FirstUnescaped(p, '[', 0) == first
    requires first + 1 < |p| && p[first + 1] != ']'
    requires LastIndexOf(p, ']', |p| - 1) == close && first + 1 <= close
    requires FirstUnescaped(p[first + 1..close], '=', 0) == -1
    requires ParseInt(Decode(p[first + 1..close])) == Success(n)
    ensures TokenOf(p, isLeaf) == Success(ArrayIndex(Decode(p[..first]), n, isLeaf))
  {
  }

  /** The token of a piece whose array body holds an unescaped '=' at eq. */
  lemma FilterTokenOf(p: string, first: nat, close: nat, eq: nat, isLeaf: bool)
    requires FirstUnescaped(p, '[', 0) == first
    requires first + 1 < |p| && p[first + 1] != ']'
    requires LastIndexOf(p, ']', |p| - 1) == close && first + 1 <= close
    requires FirstUnescaped(p[first + 1..close], '=', 0) == eq
    ensures TokenOf(p, isLeaf)
         == Success(ArrayFilter(Decode(p[..first]), Decode(p[first + 1..close][..eq]), Decode(p[first + 1..close][eq + 1..]), isLeaf))
  {
  }

  /** The name of a piece that starts with one letter and then '['. */
  lemma NameOfOneLetter(p: string)
    requires |p| >= 2 && p[1] == '[' && !IsTrimmable(p[0])
    ensures Decode(p[..1]) == [p[0]]
  {
    assert p[..1] == [p[0]];
    DecodeLetter(p[..1]);
  }

  /** `n[d]` with a one-letter name n and a digit d: the index token of element d of n. */
  lemma IndexPiece(p: string, isLeaf: bool)
    requires |p| == 4 && NameChar(p[0]) && p[1] == '[' && IsDigit(p[2]) && p[3] == ']'
    ensures TokenOf(p, isLeaf) == Success(ArrayIndex([p[0]], DigitValue(p[2]), isLeaf))
  {
    BracketAfterName(p);
    LastBracketAtEnd(p);
    NameOfOneLetter(p);
    var body := p[2..3];
    assert body == [p[2]];
    NotPresent(body, '=');
    DecodeLetter(body);
    ParseOneChar(p[2]);
    IndexTokenOf(p, 1, 3, DigitValue(p[2]), isLeaf);
  }

  /** `n[k=v]` with one-letter n, k and v: the filter token of the elements of n whose k is v. */
  lemma FilterPiece(p: string, isLeaf: bool)
    requires |p| == 6 && NameChar(p[0]) && p[1] == '[' && p[3] == '=' && p[5] == ']'
    requires !IsTrimmable(p[2]) && p[2] != '=' && p[2] != ']' && p[2] != Esc && !IsTrimmable(p[4])
    ensures TokenOf(p, isLeaf) == Success(ArrayFilter([p[0]], [p[2]], [p[4]], isLeaf))
  {
    BracketAfterName(p);
    LastBracketAtEnd(p);
    NameOfOneLetter(p);
    var body := p[2..5];
    assert !IsUnescapedAt(body, 0, '=') && IsUnescapedAt(body, 1, '=');
    assert body[..1] == [p[2]] && body[2..] == [p[4]];
    DecodeLetter(body[..1]);
    DecodeLetter(body[2..]);
    FilterTokenOf(p, 1, 5, 1, isLeaf);
  }

  /** `n[]` with a one-letter name n: the token of all elements of n. */
  lemma AllPiece(p: string, isLeaf: bool)
    requires |p| == 3 && NameChar(p[0]) && p[1] == '[' && p[2] == ']'
    ensures TokenOf(p, isLeaf) == Success(ArrayAll([p[0]], isLeaf))
  {
    BracketAfterName(p);
    NameOfOneLetter(p);
  }

  /** Four pieces joined with '.': each piece, a dot between each two. */
  lemma JoinOfFour(ps: seq<string>)
    requires |ps| == 4
    ensures Join(ps, '.') == ps[0] + "." + (ps[1] + "." + (ps[2] + "." + ps[3]))
  {
    assert ps[1..][1..] == ps[2..] && ps[2..][1..] == ps[3..];
    assert Join(ps[3..], '.') == ps[3];
    assert Join(ps[2..], '.') == ps[2] + "." + ps[3];
    assert Join(ps[1..], '.') == ps[1] + "." + (ps[2] + "." + ps[3]);
  }

  lemma SampleSeparable(ps: seq<string>)
    requires ps == ["a", "b[2]", "c[k=v]", "d[]"]
    ensures Separable(ps)
  {
    forall k | 0 <= k < 4
      ensures DotsEscaped(ps[k]) && ps[k] != [] && ps[k][|ps[k]| - 1] != Esc
    {
      var p := ps[k];
      assert '.' !in p;
    }
  }

  lemma SampleRoot(path: string, ps: seq<string>)
    requires path == "$.a.b[2].c[k=v].d[]"
    requires ps == ["a", "b[2]", "c[k=v]", "d[]"]
    ensures path == "$." + (ps[0] + "." + (ps[1] + "." + (ps[2] + "." + ps[3])))
  {
  }

  lemma SamplePieces(path: string, ps: seq<string>)
    requires path == "$.a.b[2].c[k=v].d[]"
    requires ps == ["a", "b[2]", "c[k=v]", "d[]"]
    ensures StringTokens(path) == ps
  {
    JoinOfFour(ps);
    SampleSeparable(ps);
    StringTokensOfJoin(ps);
    SampleRoot(path, ps);
  }

  /** A one-letter piece n without '[': the plain token n. */
  lemma PlainPiece(p: string, isLeaf: bool)
    requires |p| == 1 && NameChar(p[0])
    ensures TokenOf(p, isLeaf) == Success(Plain(p, isLeaf))
  {
    DecodeLetter(p);
    assert !IsUnescapedAt(p, 0, '[');
  }

  lemma SampleIndexToken(p: string)
    requires p == "b[2]"
    ensures TokenOf(p, false) == Success(ArrayIndex("b", 2, false))
  {
    IndexPiece(p, false);
  }

  lemma SampleFilterToken(p: string)
    requires p == "c[k=v]"
    ensures TokenOf(p, false) == Success(ArrayFilter("c", "k", "v", false))
  {
    FilterPiece(p, false);
  }

  lemma SampleTokens(ps: seq<string>, ts: seq<Token>)
    requires ps == ["a", "b[2]", "c[k=v]", "d[]"]
    requires ts == [Plain("a", false), ArrayIndex("b", 2, false), ArrayFilter("c", "k", "v", false), ArrayAll("d", true)]
    ensures TokensOf(ps) == Success(ts)
  {
    forall k | 0 <= k < 4
      ensures TokenOf(ps[k], k == 3) == Success(ts[k])
    {
      if k == 0 {
        PlainPiece(ps[0], false);
      } else if k == 1 {
        SampleIndexToken(ps[1]);
      } else if k == 2 {
        SampleFilterToken(ps[2]);
      } else {
        AllPiece(ps[3], true);
      }
    }
    TokensUpToAll(TokenOf, ps, ts);
  }

  /** A path using every token form, token by token. */
  lemma SamplePath(path: string)
    requires path == "$.a.b[2].c[k=v].d[]"
    ensures TokensOfPath(path) == Success([
      Plain("a", false), ArrayIndex("b", 2, false), ArrayFilter("c", "k", "v", false), ArrayAll("d", true)])
  {
    var ps := ["a", "b[2]", "c[k=v]", "d[]"];
    SamplePieces(path, ps);
    SampleTokens(ps, [Plain("a", false), ArrayIndex("b", 2, false), ArrayFilter("c", "k", "v", false), ArrayAll("d", true)]);
  }

  /** `n[` with a one-letter name n: nothing follows the '[', and charAt throws. */
  lemma BracketAtEndPiece(p: string, isLeaf: bool)
    requires |p| == 2 && NameChar(p[0]) && p[1] == '['
    ensures TokenOf(p, isLeaf) == Failure(BracketAtEnd)
  {
    BracketAfterName(p);
  }

  /** `n[x` with a one-letter name n: no ']' follows the '[', and substring throws. */
  lemma NoClosingBracketPiece(p: string, isLeaf: bool)
    requires |p| == 3 && NameChar(p[0]) && p[1] == '[' && ']' !in p
    ensures TokenOf(p, isLeaf) == Failure(NoClosingBracket)
  {
    BracketAfterName(p);
  }

  /** `n[x]` with x no digit, no '=' and no ']': Integer.parseInt throws on the index text. */
  lemma BadIndexPiece(p: string, isLeaf: bool)
    requires |p| == 4 && NameChar(p[0]) && p[1] == '[' && p[3] == ']'
    requires !IsDigit(p[2]) && p[2] != '=' && p[2] != ']' && !IsTrimmable(p[2])
    ensures TokenOf(p, isLeaf) == Failure(BadIndex([p[2]]))
  {
    BracketAfterName(p);
    LastBracketAtEnd(p);
    var body := p[2..3];
    assert body == [p[2]];
    NotPresent(body, '=');
    DecodeLetter(body);
    ParseOneChar(p[2]);
  }

  /** A '[' with nothing after it, a '[' without a later ']', and an index that is no number all fail. */
  lemma MalformedPieces(p1: string, p2: string, p3: string)
    requires p1 == "a[" && p2 == "a[1" && p3 == "a[x]"
    ensures TokenOf(p1, true) == Failure(BracketAtEnd)
    ensures TokenOf(p2, true) == Failure(NoClosingBracket)
    ensures TokenOf(p3, true) == Failure(BadIndex("x"))
  {
    BracketAtEndPiece(p1, true);
    NoClosingBracketPiece(p2, true);
    BadIndexPiece(p3, true);
  }

  // ---------------------------------------------------------------
  // Reading back a token written as a path piece
  // ---------------------------------------------------------------

  /** A name, key or value that decodes back from its escaped form: no blank at either end and no escape character in front of a reserved one or of another escape character. */
  predicate Readable(x: string) {
    IsTrimmed(x) && NoEscapePairs(x, Esc, Reserved)
  }

  /** A readable part that a delimiter may follow: it does not end in the escape character, which would escape that delimiter. */
  predicate Delimitable(x: string) {
    Readable(x) && (x == [] || x[|x| - 1] != Esc)
  }

  /** The path piece that stands for a token: name, key and value escaped, the index in decimal. */
  function PieceText(t: Token): string {
    match t
    case Plain(n, _) => Escape(n, Esc, Reserved)
    case ArrayAll(n, _) => Escape(n, Esc, Reserved) + "[]"
    case ArrayIndex(n, i, _) => Escape(n, Esc, Reserved) + "[" + DecimalString(i) + "]"
    case ArrayFilter(n, k, v, _) => Escape(n, Esc, Reserved) + "[" + FilterBodyText(k, v) + "]"
  }

  /** The body of a filter piece: the escaped key, '=' and the escaped value. */
  function FilterBodyText(k: string, v: string): string {
    Escape(k, Esc, Reserved) + "=" + Escape(v, Esc, Reserved)
  }

  /** The tokens whose piece reads back as the same token. */
  predicate PrintableToken(t: Token) {
    match t
    case Plain(n, _) => Readable(n)
    case ArrayAll(n, _) => Delimitable(n)
    case ArrayIndex(n, i, _) => Delimitable(n) && IsInt32(i)
    case ArrayFilter(n, k, v, _) => Delimitable(n) && Delimitable(k) && Readable(v)
  }

  /** Decoding undoes escaping for a readable part. */
  lemma DecodeEscaped(x: string)
    requires Readable(x)
    ensures Decode(Escape(x, Esc, Reserved)) == x
  {
    UnescapeEscape(x, Esc, Reserved);
    UnescapeIdentity(x, Esc, Reserved);
    TrimNoop(x);
  }

  /** No reserved character of an escaped text counts as unescaped. */
  lemma EscapedHasNoUnescaped(x: string, symbol: char)
    requires symbol in Reserved
    ensures forall i :: 0 <= i < |Escape(x, Esc, Reserved)| ==> !IsUnescapedAt(Escape(x, Esc, Reserved), i, symbol)
  {
    var e := Escape(x, Esc, Reserved);
    forall i | 0 <= i < |e| && e[i] == symbol
      ensures IsEscaped(e, i, Esc)
    {
      EscapeGuardsReserved(x, Esc, Reserved, i);
    }
  }

  /** The first character of an escaped text: the escape character when the text starts with a special one. */
  lemma EscapeFirst(x: string)
    requires x != []
    ensures Escape(x, Esc, Reserved) != []
    ensures Escape(x, Esc, Reserved)[0] == if IsSpecial(x[0], Esc, Reserved) then Esc else x[0]
  {
    var head := if IsSpecial(x[0], Esc, Reserved) then [Esc, x[0]] else [x[0]];
    assert Escape(x, Esc, Reserved) == head + Escape(x[1..], Esc, Reserved);
  }

  /** An escaped delimitable part followed by a reserved symbol: that symbol is its first unescaped occurrence. */
  lemma FirstAfterEscaped(x: string, rest: string, symbol: char)
    requires symbol in Reserved
    requires x == [] || x[|x| - 1] != Esc
    requires rest != [] && rest[0] == symbol
    ensures FirstUnescaped(Escape(x, Esc, Reserved) + rest, symbol, 0) == |Escape(x, Esc, Reserved)|
  {
    var e := Escape(x, Esc, Reserved);
    var p := e + rest;
    EscapedHasNoUnescaped(x, symbol);
    forall i | 0 <= i < |e|
      ensures !IsUnescapedAt(p, i, symbol)
    {
      assert p[i] == e[i];
      assert i > 0 ==> p[i - 1] == e[i - 1];
      assert !IsUnescapedAt(e, i, symbol);
    }
    FirstUnescapedSkip(p, symbol, 0, |e|);
    if x != [] {
      EscapeLast(x, Esc, Reserved);
      assert p[|e| - 1] == e[|e| - 1];
    }
    assert IsUnescapedAt(p, |e|, symbol);
  }

  /** The characters of a decimal string are digits and possibly a leading minus. */
  lemma DecimalChars(n: int)
    ensures forall j :: 0 <= j < |DecimalString(n)| ==> IsDigit(DecimalString(n)[j]) || DecimalString(n)[j] == '-'
  {
    if n < 0 {
      var d := NatDigits(-n);
      assert DecimalString(n) == "-" + d;
      assert forall j :: 1 <= j < |DecimalString(n)| ==> DecimalString(n)[j] == d[j - 1];
    }
  }

  /** A decimal string decodes to itself: it holds no escape and no blank. */
  lemma DecodeDecimal(n: int)
    ensures Decode(DecimalString(n)) == DecimalString(n)
    ensures FirstUnescaped(DecimalString(n), '=', 0) == -1
  {
    var d := DecimalString(n);
    DecimalChars(n);
    assert NoEscapePairs(d, Esc, Reserved) by {
      forall i | 0 <= i < |d| - 1
        ensures !IsDroppedAt(d, i, Esc, Reserved)
      {
        assert d[i] != Esc;
      }
    }
    UnescapeIdentity(d, Esc, Reserved);
    TrimNoop(d);
    assert '=' !in d by {
      forall j | 0 <= j < |d|
        ensures d[j] != '='
      {
      }
    }
    NotPresent(d, '=');
  }

  /** A plain piece reads back as its name. */
  lemma PlainReadBack(n: string, isLeaf: bool)
    requires Readable(n)
    ensures TokenOf(Escape(n, Esc, Reserved), isLeaf) == Success(Plain(n, isLeaf))
  {
    var e := Escape(n, Esc, Reserved);
    EscapedHasNoUnescaped(n, '[');
    assert FirstUnescaped(e, '[', 0) == -1;
    DecodeEscaped(n);
  }

  /** A piece `e[]` whose '[' is the first unescaped one: the all-elements token of the decoded name. */
  lemma AllPieceOf(e: string, p: string, n: string, isLeaf: bool)
    requires p == e + "[]"
    requires FirstUnescaped(p, '[', 0) == |e|
    requires Decode(e) == n
    ensures TokenOf(p, isLeaf) == Success(ArrayAll(n, isLeaf))
  {
    AllPieceParts(e);
    AllTokenOf(p, |e|, n, isLeaf);
  }

  /** The piece `e[]`: the name e, then '[' and ']'. */
  lemma AllPieceParts(e: string)
    ensures |e + "[]"| == |e| + 2 && (e + "[]")[..|e|] == e && (e + "[]")[|e| + 1] == ']'
  {
    assert (e + "[]")[..|e|] == e;
  }

  /** `name[]` reads back as the all-elements token of its name. */
  lemma AllReadBack(n: string, isLeaf: bool)
    requires Delimitable(n)
    ensures TokenOf(Escape(n, Esc, Reserved) + "[]", isLeaf) == Success(ArrayAll(n, isLeaf))
  {
    FirstAfterEscaped(n, "[]", '[');
    DecodeEscaped(n);
    AllPieceOf(Escape(n, Esc, Reserved), Escape(n, Esc, Reserved) + "[]", n, isLeaf);
  }

  /** The piece around an array body: the escaped name, '[', the body and ']'. */
  lemma ArrayPieceParts(e: string, body: string)
    ensures var p := e + "[" + body + "]";
      && p == e + ("[" + body + "]")
      && |p| == |e| + |body| + 2
      && p[..|e|] == e
      && p[|e|] == '['
      && p[|e| + 1..|p| - 1] == body
      && p[|p| - 1] == ']'
      && (body != [] ==> p[|e| + 1] == body[0])
  {
    var p := e + "[" + body + "]";
    assert p[|e| + 1..|p| - 1] == body;
  }

  /** A piece `e[d]` whose '[' is the first unescaped one and whose body has no unescaped '=': the index token d reads as. */
  lemma IndexPieceOf(e: string, d: string, n: string, i: int, isLeaf: bool)
    requires FirstUnescaped(e + ("[" + d + "]"), '[', 0) == |e|
    requires d != [] && d[0] != ']' && FirstUnescaped(d, '=', 0) == -1
    requires Decode(e) == n && ParseInt(Decode(d)) == Success(i)
    ensures TokenOf(e + "[" + d + "]", isLeaf) == Success(ArrayIndex(n, i, isLeaf))
  {
    var p := e + "[" + d + "]";
    ArrayPieceParts(e, d);
    LastBracketAtEnd(p);
    IndexTokenOf(p, |e|, |p| - 1, i, isLeaf);
  }

  /** `name[i]` reads back as the index token of its name and index. */
  lemma IndexReadBack(n: string, i: int, isLeaf: bool)
    requires Delimitable(n) && IsInt32(i)
    ensures TokenOf(Escape(n, Esc, Reserved) + "[" + DecimalString(i) + "]", isLeaf) == Success(ArrayIndex(n, i, isLeaf))
  {
    var d := DecimalString(i);
    FirstAfterEscaped(n, "[" + d + "]", '[');
    DecimalChars(i);
    assert d[0] != ']';
    DecodeDecimal(i);
    ParseDecimal(i);
    DecodeEscaped(n);
    IndexPieceOf(Escape(n, Esc, Reserved), d, n, i, isLeaf);
  }

  /** A piece `e[ek=ev]` whose '[' and '=' are the first unescaped ones: the filter token of the three decoded parts. */
  lemma FilterPieceOf(e: string, ek: string, ev: string, p: string, n: string, k: string, v: string, isLeaf: bool)
    requires p == e + "[" + (ek + "=" + ev) + "]"
    requires FirstUnescaped(p, '[', 0) == |e|
    requires FirstUnescaped(ek + "=" + ev, '=', 0) == |ek|
    requires (ek + "=" + ev)[0] != ']'
    requires Decode(e) == n && Decode(ek) == k && Decode(ev) == v
    ensures TokenOf(p, isLeaf) == Success(ArrayFilter(n, k, v, isLeaf))
  {
    var body := ek + "=" + ev;
    assert body[..|ek|] == ek && body[|ek| + 1..] == ev;
    ArrayPieceParts(e, body);
    LastBracketAtEnd(p);
    FilterTokenOf(p, |e|, |p| - 1, |ek|, isLeaf);
  }

  /** The body of a filter piece: its first unescaped '=' follows the escaped key, and it does not start with ']'. */
  lemma FilterBody(k: string, v: string)
    requires Delimitable(k)
    ensures FirstUnescaped(Escape(k, Esc, Reserved) + "=" + Escape(v, Esc, Reserved), '=', 0) == |Escape(k, Esc, Reserved)|
    ensures (Escape(k, Esc, Reserved) + "=" + Escape(v, Esc, Reserved))[0] != ']'
  {
    var ek := Escape(k, Esc, Reserved);
    var ev := Escape(v, Esc, Reserved);
    assert ek + "=" + ev == ek + ("=" + ev);
    FirstAfterEscaped(k, "=" + ev, '=');
    if k != [] {
      EscapeFirst(k);
    }
  }

  /** `name[key=value]` reads back as the filter token of its three parts. */
  lemma FilterReadBack(n: string, k: string, v: string, isLeaf: bool)
    requires Delimitable(n) && Delimitable(k) && Readable(v)
    ensures TokenOf(Escape(n, Esc, Reserved) + "[" + FilterBodyText(k, v) + "]", isLeaf) == Success(ArrayFilter(n, k, v, isLeaf))
  {
    var e, ek, ev := Escape(n, Esc, Reserved), Escape(k, Esc, Reserved), Escape(v, Esc, Reserved);
    FilterBody(k, v);
    var p := e + "[" + (ek + "=" + ev) + "]";
    ArrayPieceParts(e, ek + "=" + ev);
    FirstAfterEscaped(n, "[" + (ek + "=" + ev) + "]", '[');
    DecodeEscaped(n);
    DecodeEscaped(k);
    DecodeEscaped(v);
    FilterPieceOf(e, ek, ev, p, n, k, v, isLeaf);
  }

  /** getTokens reads every printable token back from its piece, leaf flag included. */
  lemma TokenOfPieceText(t: Token)
    requires PrintableToken(t)
    ensures TokenOf(PieceText(t), t.isLeaf) == Success(t)
  {
    match t
    case Plain(n, leaf) => PlainReadBack(n, leaf);
    case ArrayAll(n, leaf) => AllReadBack(n, leaf);
    case ArrayIndex(n, i, leaf) => IndexReadBack(n, i, leaf);
    case ArrayFilter(n, k, v, leaf) => FilterReadBack(n, k, v, leaf);
  }
}
