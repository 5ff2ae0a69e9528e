/**
 * com.anode.tool.engine.TemplateEngine.loopConvert: turns flat properties
 * with dotted keys into nested maps for the template renderer, so that
 * "tool.apache.jar = tool.jar" becomes {tool: {apache: {jar: "tool.jar"}}}.
 *
 * A nested HashMap<String, Object> holds either a String or another such
 * map under each name; here it is the value type Value. The properties are
 * given as a sequence of (key, value) entries in the order the Properties
 * table hands them out, since the result depends on that order.
 */
module Engine {
  import opened Wrappers
  import opened JavaLang

  /** What a nested map holds under a name: a string or a further map. */
  datatype Value = Text(s: string) | Tree(entries: map<string, Value>)

  /** The ClassCastException thrown when a string stands where a map is needed. */
  datatype ConvertError = ClassCast(segment: string)

  // ---------------------------------------------------------------
  // Key segments
  // ---------------------------------------------------------------

  /** String.replace("-", "_"). */
  function ReplaceDash(s: string): (r: string)
    ensures |r| == |s|
    ensures forall i :: 0 <= i < |s| ==> r[i] == (if s[i] == '-' then '_' else s[i])
  {
    if s == [] then [] else [if s[0] == '-' then '_' else s[0]] + ReplaceDash(s[1..])
  }

  /** The map step of the key stream: every piece with '-' replaced by '_'. */
  function ReplaceDashAll(pieces: seq<string>): (r: seq<string>)
    ensures |r| == |pieces|
  {
    if pieces == [] then [] else [ReplaceDash(pieces[0])] + ReplaceDashAll(pieces[1..])
  }

  lemma {:induction false} ReplaceDashAllAt(pieces: seq<string>, k: nat)
    requires k < |pieces|
    ensures ReplaceDashAll(pieces)[k] == ReplaceDash(pieces[k])
    decreases k
  {
    if k > 0 {
      ReplaceDashAllAt(pieces[1..], k - 1);
    }
  }

  /** The key split on '.', each piece with '-' replaced by '_'. */
  function KeySegments(key: string): seq<string>
  {
    var pieces := Split(key, '.');
    seq(|pieces|, i requires 0 <= i < |pieces| => ReplaceDash(pieces[i]))
  }

  lemma KeySegmentsAll(key: string)
    ensures KeySegments(key) == ReplaceDashAll(Split(key, '.'))
  {
    var pieces := Split(key, '.');
    forall k | 0 <= k < |pieces|
      ensures KeySegments(key)[k] == ReplaceDashAll(pieces)[k]
    {
      ReplaceDashAllAt(pieces, k);
    }
  }

  lemma ReplaceDashConcat(a: string, b: string)
    ensures ReplaceDash(a + b) == ReplaceDash(a) + ReplaceDash(b)
  {
    var l, r := ReplaceDash(a + b), ReplaceDash(a) + ReplaceDash(b);
    forall k | 0 <= k < |a + b|
      ensures l[k] == r[k]
    {
      if k < |a| {
        assert (a + b)[k] == a[k];
      } else {
        assert (a + b)[k] == b[k - |a|];
      }
    }
  }

  /** No '-' is left, and a '.' is there exactly when it was there before. */
  lemma ReplaceDashChars(s: string)
    ensures '-' !in ReplaceDash(s)
    ensures '.' in ReplaceDash(s) <==> '.' in s
  {
    var r := ReplaceDash(s);
    if '.' in r {
      var i :| 0 <= i < |r| && r[i] == '.';
      assert s[i] == '.';
    }
    if '.' in s {
      var i :| 0 <= i < |s| && s[i] == '.';
      assert r[i] == '.';
    }
  }

  lemma {:induction false} ReplaceDashJoin(pieces: seq<string>)
    ensures ReplaceDash(Join(pieces, '.')) == Join(ReplaceDashAll(pieces), '.')
    decreases |pieces|
  {
    var mapped := ReplaceDashAll(pieces);
    if |pieces| > 1 {
      var rest := ReplaceDashAll(pieces[1..]);
      ReplaceDashJoin(pieces[1..]);
      assert mapped == [ReplaceDash(pieces[0])] + rest;
      assert mapped[0] == ReplaceDash(pieces[0]) && mapped[1..] == rest;
      var j := Join(pieces[1..], '.');
      assert Join(pieces, '.') == (pieces[0] + ['.']) + j;
      ReplaceDashConcat(pieces[0] + ['.'], j);
      ReplaceDashConcat(pieces[0], ['.']);
      assert ReplaceDash(['.']) == ['.'];
      assert ReplaceDash(Join(pieces, '.')) == (mapped[0] + ['.']) + Join(rest, '.');
      assert Join(mapped, '.') == (mapped[0] + ['.']) + Join(mapped[1..], '.');
    }
  }

  /**
   * The segments hold no '.' and no '-', and joined back with '.' they give
   * the key with every '-' turned into '_' and its trailing dots dropped.
   */
  lemma KeySegmentsSpec(key: string)
    ensures forall k :: 0 <= k < |KeySegments(key)| ==> '.' !in KeySegments(key)[k] && '-' !in KeySegments(key)[k]
    ensures Join(KeySegments(key), '.') == ReplaceDash(TrimTrailing(key, '.'))
  {
    var pieces := Split(key, '.');
    SplitSpec(key, '.');
    ReplaceDashJoin(pieces);
    KeySegmentsAll(key);
    forall k | 0 <= k < |pieces|
      ensures '.' !in KeySegments(key)[k] && '-' !in KeySegments(key)[k]
    {
      ReplaceDashChars(pieces[k]);
    }
  }

  // ---------------------------------------------------------------
  // The walk of one key down the nested maps
  // ---------------------------------------------------------------

  /** Map.computeIfAbsent(key, k -> new HashMap()). */
  function ComputeIfAbsent(m: map<string, Value>, key: string): (r: map<string, Value>)
    ensures key in r && r[key] == (if key in m then m[key] else Tree(map[]))
    ensures forall k :: k != key ==> (k in r <==> k in m) && (k in m ==> r[k] == m[k])
  {
    if key in m then m else m[key := Tree(map[])]
  }

  /**
   * The inner loop of loopConvert from segment j on, with m the map the
   * cursor stands on: a segment whose first index in the list is the last
   * index stores the value under the last segment; any other segment gets a
   * map created when absent and the cursor moves into it, which throws when
   * a string is there. The result is m as the walk leaves it.
   */
  function Walk(m: map<string, Value>, segs: seq<string>, j: nat, value: string): Result<map<string, Value>, ConvertError>
    requires j <= |segs|
    decreases |segs| - j
  {
    if j == |segs| then Success(m)
    else if FirstIndex(segs, segs[j]) == |segs| - 1 then
      Walk(m[segs[|segs| - 1] := Text(value)], segs, j + 1, value)
    else
      var m1 := ComputeIfAbsent(m, segs[j]);
      match m1[segs[j]]
      case Text(_) => Failure(ClassCast(segs[j]))
      case Tree(sub) =>
        match Walk(sub, segs, j + 1, value)
        case Failure(e) => Failure(e)
        case Success(sub1) => Success(m1[segs[j] := Tree(sub1)])
  }

  /** The value found by following path from m: the names of maps, then a last name. */
  function Get(m: map<string, Value>, path: seq<string>): Option<Value>
    decreases |path|
  {
    if path == [] then Some(Tree(m))
    else if path[0] !in m then None
    else if |path| == 1 then Some(m[path[0]])
    else match m[path[0]]
      case Text(_) => None
      case Tree(sub) => Get(sub, path[1..])
  }

  /** The last segment does not occur earlier in the key. */
  predicate LastStored(segs: seq<string>) {
    segs != [] && segs[|segs| - 1] !in segs[..|segs| - 1]
  }

  /** The number of maps the walk moves into: all segments but a stored last one. */
  function Descents(segs: seq<string>): (n: nat)
    ensures n <= |segs|
  {
    if LastStored(segs) then |segs| - 1 else |segs|
  }

  /** A string stands at path. */
  predicate TextAt(m: map<string, Value>, path: seq<string>) {
    Get(m, path).Some? && Get(m, path).value.Text?
  }

  /** Two paths part ways: at some position both have a name and the names differ. */
  predicate Diverges(p: seq<string>, q: seq<string>)
    decreases |p|
  {
    p != [] && q != [] && (p[0] != q[0] || Diverges(p[1..], q[1..]))
  }

  /**
   * The indexOf test fires exactly at the last segment, and only when that
   * name does not occur earlier: a key whose last name repeats an earlier
   * one never has its value stored.
   */
  lemma FiresIff(segs: seq<string>, j: nat)
    requires j < |segs|
    ensures FirstIndex(segs, segs[j]) == |segs| - 1 <==> j == |segs| - 1 && LastStored(segs)
  {
    var r := FirstIndex(segs, segs[j]);
    if r != -1 && r < j {
      assert segs[r] in segs[..j];
    }
  }

  /** When the last segment is stored, the value stands at the end of the path. */
  lemma {:induction false} WalkStores(m: map<string, Value>, segs: seq<string>, j: nat, value: string)
    requires j < |segs| && LastStored(segs)
    requires Walk(m, segs, j, value).Success?
    ensures Get(Walk(m, segs, j, value).value, segs[j..]) == Some(Text(value))
    decreases |segs| - j
  {
    FiresIff(segs, j);
    if j == |segs| - 1 {
      assert segs[j..] == [segs[j]];
    } else {
      var key := segs[j];
      var m1 := ComputeIfAbsent(m, key);
      var sub := m1[key].entries;
      WalkStores(sub, segs, j + 1, value);
      assert segs[j..][1..] == segs[j + 1..];
    }
  }

  /**
   * When the last segment repeats an earlier name, a successful walk leaves
   * a map, never the value, at the end of the path.
   */
  lemma {:induction false} WalkRepeatedLast(m: map<string, Value>, segs: seq<string>, j: nat, value: string)
    requires j < |segs| && !LastStored(segs)
    requires Walk(m, segs, j, value).Success?
    ensures Get(Walk(m, segs, j, value).value, segs[j..]).Some?
    ensures Get(Walk(m, segs, j, value).value, segs[j..]).value.Tree?
    decreases |segs| - j
  {
    FiresIff(segs, j);
    var key := segs[j];
    var m1 := ComputeIfAbsent(m, key);
    var sub := m1[key].entries;
    if j == |segs| - 1 {
      assert segs[j..] == [key];
    } else {
      WalkRepeatedLast(sub, segs, j + 1, value);
      assert segs[j..][1..] == segs[j + 1..];
    }
  }

  /** Whatever stands at a path that parts ways with the key's segments is left as it was. */
  lemma {:induction false} WalkKeepsOthers(m: map<string, Value>, segs: seq<string>, j: nat, value: string, p: seq<string>)
    requires j <= |segs| && Diverges(p, segs[j..])
    requires Walk(m, segs, j, value).Success?
    ensures Get(Walk(m, segs, j, value).value, p) == Get(m, p)
    decreases |segs| - j
  {
    var key := segs[j];
    assert segs[j..][1..] == segs[j + 1..];
    FiresIff(segs, j);
    if FirstIndex(segs, segs[j]) == |segs| - 1 {
      assert p[0] != key;
    } else {
      var m1 := ComputeIfAbsent(m, key);
      var sub := m1[key].entries;
      if p[0] == key {
        WalkKeepsOthers(sub, segs, j + 1, value, p[1..]);
      }
    }
  }

  /** Below a map, or a name not yet present, the path continues in the map found there. */
  lemma TextAtBelow(m: map<string, Value>, segs: seq<string>, j: nat, i: nat)
    requires j + 1 < i <= |segs| && (segs[j] in m ==> m[segs[j]].Tree?)
    ensures TextAt(m, segs[j..i]) == TextAt(ComputeIfAbsent(m, segs[j])[segs[j]].entries, segs[j + 1..i])
  {
    assert segs[j..i][1..] == segs[j + 1..i];
  }

  /**
   * The walk throws exactly when, on the way down, a string stands where it
   * has to move into a map; the value being stored plays no part.
   */
  lemma {:induction false} WalkFailsIff(m: map<string, Value>, segs: seq<string>, j: nat, value: string)
    requires j <= |segs|
    ensures Walk(m, segs, j, value).Failure? <==> exists i :: j < i <= Descents(segs) && TextAt(m, segs[j..i])
    decreases |segs| - j
  {
    if j < |segs| {
      FiresIff(segs, j);
      if FirstIndex(segs, segs[j]) != |segs| - 1 {
        var key := segs[j];
        assert segs[j..j + 1] == [key];
        assert j + 1 <= Descents(segs);
        if key in m && m[key].Text? {
          assert Walk(m, segs, j, value).Failure?;
          assert TextAt(m, segs[j..j + 1]);
        } else {
          var sub := ComputeIfAbsent(m, key)[key].entries;
          WalkFailsIff(sub, segs, j + 1, value);
          assert !TextAt(m, segs[j..j + 1]);
          assert Walk(m, segs, j, value).Failure? == Walk(sub, segs, j + 1, value).Failure?;
          if Walk(m, segs, j, value).Failure? {
            var i :| j + 1 < i <= Descents(segs) && TextAt(sub, segs[j + 1..i]);
            TextAtBelow(m, segs, j, i);
          }
          if exists i :: j < i <= Descents(segs) && TextAt(m, segs[j..i]) {
            var i :| j < i <= Descents(segs) && TextAt(m, segs[j..i]);
            TextAtBelow(m, segs, j, i);
          }
        }
      }
    }
  }

  /** Walking the same key twice is walking it once with the second value. */
  lemma {:induction false} WalkOverwrite(m: map<string, Value>, segs: seq<string>, j: nat, v1: string, v2: string)
    requires j <= |segs|
    requires Walk(m, segs, j, v1).Success?
    ensures Walk(Walk(m, segs, j, v1).value, segs, j, v2) == Walk(m, segs, j, v2)
    decreases |segs| - j
  {
    if j < |segs| {
      FiresIff(segs, j);
      var key := segs[j];
      if FirstIndex(segs, key) == |segs| - 1 {
        assert m[key := Text(v1)][key := Text(v2)] == m[key := Text(v2)];
      } else {
        var m1 := ComputeIfAbsent(m, key);
        var sub := m1[key].entries;
        WalkOverwrite(sub, segs, j + 1, v1, v2);
        var sub1 := Walk(sub, segs, j + 1, v1).value;
        var w := m1[key := Tree(sub1)];
        assert ComputeIfAbsent(w, key) == w;
        var r2 := Walk(sub, segs, j + 1, v2);
        if r2.Success? {
          assert w[key := Tree(r2.value)] == m1[key := Tree(r2.value)];
        }
      }
    }
  }

  // ---------------------------------------------------------------
  // The loop over the entries
  // ---------------------------------------------------------------

  /** One entry: skipped when the value is empty, otherwise its key walked from the top map. */
  function PutEntry(m: map<string, Value>, entry: (string, string)): Result<map<string, Value>, ConvertError>
  {
    if entry.1 == "" then Success(m) else Walk(m, KeySegments(entry.0), 0, entry.1)
  }

  /** loopConvert: the entries one after the other from an empty map; the first exception ends it. */
  function Convert(entries: seq<(string, string)>): Result<map<string, Value>, ConvertError>
  {
    if entries == [] then Success(map[])
    else
      match Convert(entries[..|entries| - 1])
      case Failure(e) => Failure(e)
      case Success(m) => PutEntry(m, entries[|entries| - 1])
  }

  lemma ConvertSnoc(entries: seq<(string, string)>, e: (string, string))
    ensures Convert(entries + [e]) == if Convert(entries).Failure? then Convert(entries) else PutEntry(Convert(entries).value, e)
  {
    assert (entries + [e])[..|entries|] == entries;
  }

  /** The entries with a non-empty value, in order. */
  function NonEmpty(entries: seq<(string, string)>): (r: seq<(string, string)>)
    ensures forall k :: 0 <= k < |r| ==> r[k].1 != ""
  {
    if entries == [] then []
    else if entries[|entries| - 1].1 == "" then NonEmpty(entries[..|entries| - 1])
    else NonEmpty(entries[..|entries| - 1]) + [entries[|entries| - 1]]
  }

  /** Skipping the entries with an empty value is converting only the others. */
  lemma {:induction false} ConvertIgnoresEmpty(entries: seq<(string, string)>)
    ensures Convert(NonEmpty(entries)) == Convert(entries)
  {
    if entries != [] {
      var front := entries[..|entries| - 1];
      ConvertIgnoresEmpty(front);
      var e := entries[|entries| - 1];
      if e.1 != "" {
        assert (NonEmpty(front) + [e])[..|NonEmpty(front)|] == NonEmpty(front);
      }
    }
  }

  /** Once an entry throws, the whole conversion throws that exception, whatever follows. */
  lemma {:induction false} ConvertFailureFinal(entries: seq<(string, string)>, more: seq<(string, string)>)
    requires Convert(entries).Failure?
    ensures Convert(entries + more) == Convert(entries)
    decreases |more|
  {
    if more == [] {
      assert entries + more == entries;
    } else {
      var n := |more|;
      assert (entries + more)[..|entries + more| - 1] == entries + more[..n - 1];
      ConvertFailureFinal(entries, more[..n - 1]);
    }
  }

  /** Putting an entry whose last segment is stored leaves its value at its path. */
  lemma PutEntryStores(m: map<string, Value>, e: (string, string))
    requires e.1 != "" && LastStored(KeySegments(e.0))
    requires PutEntry(m, e).Success?
    ensures Get(PutEntry(m, e).value, KeySegments(e.0)) == Some(Text(e.1))
  {
    var segs := KeySegments(e.0);
    WalkStores(m, segs, 0, e.1);
    assert segs[0..] == segs;
  }

  /** Putting an entry whose path parts ways with p leaves p as it was. */
  lemma PutEntryKeeps(m: map<string, Value>, e: (string, string), p: seq<string>)
    requires e.1 != "" ==> Diverges(p, KeySegments(e.0))
    requires PutEntry(m, e).Success?
    ensures Get(PutEntry(m, e).value, p) == Get(m, p)
  {
    if e.1 != "" {
      var segs := KeySegments(e.0);
      assert segs[0..] == segs;
      WalkKeepsOthers(m, segs, 0, e.1, p);
    }
  }

  /**
   * The value of entry i stands at the end of its key's path in the
   * result, provided its last segment is stored and every later entry with
   * a value parts ways with that path.
   */
  lemma {:induction false} ConvertStores(entries: seq<(string, string)>, i: nat)
    requires i < |entries| && entries[i].1 != "" && LastStored(KeySegments(entries[i].0))
    requires LaterEntriesDiverge(entries, i)
    requires Convert(entries).Success?
    ensures Get(Convert(entries).value, KeySegments(entries[i].0)) == Some(Text(entries[i].1))
    decreases |entries|
  {
    var n := |entries|;
    var front := entries[..n - 1];
    var e := entries[n - 1];
    assert Convert(entries) == if Convert(front).Failure? then Convert(front) else PutEntry(Convert(front).value, e);
    var m := Convert(front).value;
    if i == n - 1 {
      PutEntryStores(m, e);
    } else {
      LaterEntriesDivergeFront(entries, i);
      ConvertStores(front, i);
      PutEntryKeeps(m, e, KeySegments(entries[i].0));
    }
  }

  /** Every entry after i that has a value parts ways with the path of entry i. */
  predicate LaterEntriesDiverge(entries: seq<(string, string)>, i: nat)
    requires i < |entries|
  {
    forall l :: i < l < |entries| && entries[l].1 != "" ==> Diverges(KeySegments(entries[i].0), KeySegments(entries[l].0))
  }

  lemma LaterEntriesDivergeFront(entries: seq<(string, string)>, i: nat)
    requires i < |entries| - 1 && LaterEntriesDiverge(entries, i)
    ensures LaterEntriesDiverge(entries[..|entries| - 1], i)
    ensures entries[..|entries| - 1][i] == entries[i]
    ensures entries[|entries| - 1].1 != "" ==> Diverges(KeySegments(entries[i].0), KeySegments(entries[|entries| - 1].0))
  {
  }

  /** A walk that throws throws the same way whatever the value. */
  lemma {:induction false} WalkFailureIgnoresValue(m: map<string, Value>, segs: seq<string>, j: nat, v1: string, v2: string)
    requires j <= |segs|
    requires Walk(m, segs, j, v1).Failure?
    ensures Walk(m, segs, j, v2) == Walk(m, segs, j, v1)
    decreases |segs| - j
  {
    if FirstIndex(segs, segs[j]) != |segs| - 1 {
      var m1 := ComputeIfAbsent(m, segs[j]);
      if m1[segs[j]].Tree? {
        WalkFailureIgnoresValue(m1[segs[j]].entries, segs, j + 1, v1, v2);
      }
    }
  }

  /** Putting two entries whose keys have the same segments is putting the second one alone. */
  lemma PutEntryOverwrite(m: map<string, Value>, e1: (string, string), e2: (string, string))
    requires e1.1 != "" && e2.1 != "" && KeySegments(e1.0) == KeySegments(e2.0)
    ensures PutEntry(m, e1).Failure? ==> PutEntry(m, e2) == PutEntry(m, e1)
    ensures PutEntry(m, e1).Success? ==> PutEntry(PutEntry(m, e1).value, e2) == PutEntry(m, e2)
  {
    var segs := KeySegments(e1.0);
    if Walk(m, segs, 0, e1.1).Failure? {
      WalkFailureIgnoresValue(m, segs, 0, e1.1, e2.1);
    } else {
      WalkOverwrite(m, segs, 0, e1.1, e2.1);
    }
  }

  /** Two entries in a row whose keys have the same segments: the second one wins. */
  lemma ConvertOverwrite(entries: seq<(string, string)>, e1: (string, string), e2: (string, string))
    requires e1.1 != "" && e2.1 != "" && KeySegments(e1.0) == KeySegments(e2.0)
    ensures Convert(entries + [e1, e2]) == Convert(entries + [e2])
  {
    assert entries + [e1, e2] == (entries + [e1]) + [e2];
    ConvertSnoc(entries + [e1], e2);
    ConvertSnoc(entries, e1);
    ConvertSnoc(entries, e2);
    if Convert(entries).Success? {
      PutEntryOverwrite(Convert(entries).value, e1, e2);
    }
  }

  lemma ReplaceDashNoop(s: string)
    requires '-' !in s
    ensures ReplaceDash(s) == s
  {
  }

  /** The segments of "a" and of "a.b" for names a and b free of '.' and '-'. */
  lemma KeySegmentsPlain(a: string, b: string)
    requires '.' !in a && '.' !in b && '-' !in a && '-' !in b && b != []
    ensures KeySegments(a) == [a]
    ensures KeySegments(a + "." + b) == [a, b]
  {
    var s := a + "." + b;
    assert s == Join([a, b], '.');
    assert s[|a|] == '.';
    SplitAllJoin([a, b], '.');
    ReplaceDashNoop(a);
    ReplaceDashNoop(b);
  }

  /** Two entries: the first put into the empty map, then the second into the result. */
  lemma ConvertTwo(e1: (string, string), e2: (string, string))
    ensures Convert([e1, e2]) == if PutEntry(map[], e1).Failure? then PutEntry(map[], e1) else PutEntry(PutEntry(map[], e1).value, e2)
  {
    ConvertSnoc([], e1);
    ConvertSnoc([e1], e2);
    assert [] + [e1] == [e1];
    assert [e1] + [e2] == [e1, e2];
  }

  /** A key of one segment a puts the string in place of whatever stood under a. */
  lemma WalkSingle(m: map<string, Value>, a: string, v: string)
    ensures Walk(m, [a], 0, v) == Success(m[a := Text(v)])
  {
    var one: seq<string> := [a];
    assert FirstIndex(one, a) == 0;
    assert Walk(m, one, 0, v) == Walk(m[a := Text(v)], one, 1, v);
  }

  /** The walk of [a, b] from the empty map creates the map under a and stores the string under b there. */
  lemma WalkIntoEmpty(a: string, b: string, v: string)
    requires a != b
    ensures Walk(map[], [a, b], 0, v) == Success(map[a := Tree(map[b := Text(v)])])
  {
    var two: seq<string> := [a, b];
    assert FirstIndex(two, a) == 0;
    assert FirstIndex(two, b) == 1;
    var mb := map[b := Text(v)];
    assert Walk(map[], two, 1, v) == Walk(mb, two, 2, v);
    var m1 := ComputeIfAbsent(map[], a);
    assert m1[a] == Tree(map[]);
    assert Walk(map[], two, 0, v) == Success(m1[a := Tree(mb)]);
    assert m1[a := Tree(mb)] == map[a := Tree(mb)];
  }

  /** The walk of [a, b] fails at a when a string stands under a. */
  lemma WalkThroughText(m: map<string, Value>, a: string, b: string, v: string)
    requires a in m && m[a].Text?
    ensures Walk(m, [a, b], 0, v) == Failure(ClassCast(a))
  {
    var two: seq<string> := [a, b];
    assert FirstIndex(two, a) == 0;
  }

  /**
   * "a" and then "a.b": the string stored under a stands where "a.b"
   * needs a map, and the conversion throws ClassCastException at a.
   */
  lemma OrderMattersTextFirst(a: string, b: string, x: string, y: string)
    requires '.' !in a && '.' !in b && '-' !in a && '-' !in b && b != []
    requires x != "" && y != ""
    ensures Convert([(a, x), (a + "." + b, y)]) == Failure(ClassCast(a))
  {
    KeySegmentsPlain(a, b);
    WalkSingle(map[], a, x);
    WalkThroughText(map[a := Text(x)], a, b, y);
    ConvertTwo((a, x), (a + "." + b, y));
  }

  /** "a.b" and then "a": the string replaces the map holding b, and nothing throws. */
  lemma OrderMattersTreeFirst(a: string, b: string, x: string, y: string)
    requires '.' !in a && '.' !in b && '-' !in a && '-' !in b && b != [] && a != b
    requires x != "" && y != ""
    ensures Convert([(a + "." + b, y), (a, x)]) == Success(map[a := Text(x)])
  {
    KeySegmentsPlain(a, b);
    var mab := map[a := Tree(map[b := Text(y)])];
    WalkIntoEmpty(a, b, y);
    WalkSingle(mab, a, x);
    assert mab[a := Text(x)] == map[a := Text(x)];
    ConvertTwo((a + "." + b, y), (a, x));
  }

  // ---------------------------------------------------------------
  // The imperative walk
  // ---------------------------------------------------------------

  /**
   * The map at the bottom of a chain of cursor positions, written back into
   * each map above it under the name the cursor moved through.
   */
  function Rebuild(above: seq<(map<string, Value>, string)>, m: map<string, Value>): map<string, Value>
    decreases |above|
  {
    if above == [] then m
    else
      var top := above[|above| - 1];
      Rebuild(above[..|above| - 1], top.0[top.1 := Tree(m)])
  }

  function Lift(above: seq<(map<string, Value>, string)>, r: Result<map<string, Value>, ConvertError>): Result<map<string, Value>, ConvertError>
  {
    match r
    case Failure(e) => Failure(e)
    case Success(m) => Success(Rebuild(above, m))
  }

  /**
   * The inner loop of loopConvert for one key and a non-empty value. Java's
   * cursor tmpMap is an alias into retMap; here it is the map the cursor
   * stands on together with the maps above it, which are written back once
   * the key is done.
   */
  method StoreEntry(retMap: map<string, Value>, key: string, value: string) returns (r: Result<map<string, Value>, ConvertError>)
    ensures r == Walk(retMap, KeySegments(key), 0, value)
  {
    var keyList := KeySegments(key);
    var above: seq<(map<string, Value>, string)> := [];
    var tmpMap := retMap;
    for j := 0 to |keyList|
      invariant Lift(above, Walk(tmpMap, keyList, j, value)) == Walk(retMap, keyList, 0, value)
    {
      var k := keyList[j];
      if FirstIndex(keyList, k) == |keyList| - 1 {
        tmpMap := tmpMap[keyList[|keyList| - 1] := Text(value)];
      } else {
        tmpMap := ComputeIfAbsent(tmpMap, k);
        var child := tmpMap[k];
        if child.Text? {
          return Failure(ClassCast(k));
        }
        assert Rebuild(above + [(tmpMap, k)], child.entries) == Rebuild(above, tmpMap[k := child]) by {
          assert (above + [(tmpMap, k)])[..|above|] == above;
        }
        above := above + [(tmpMap, k)];
        tmpMap := child.entries;
        ghost var w := Walk(tmpMap, keyList, j + 1, value);
        assert w.Success? ==> Rebuild(above, w.value) == Rebuild(above[..|above| - 1], above[|above| - 1].0[k := Tree(w.value)]);
      }
    }
    r := Success(Rebuild(above, tmpMap));
  }

  /** loopConvert: every entry with a non-empty value, in order, into one nested map. */
  method LoopConvert(entries: seq<(string, string)>) returns (r: Result<map<string, Value>, ConvertError>)
    ensures r == Convert(entries)
  {
    var retMap: map<string, Value> := map[];
    for i := 0 to |entries|
      invariant Convert(entries[..i]) == Success(retMap)
    {
      var (key, value) := entries[i];
      ConvertSnoc(entries[..i], entries[i]);
      assert entries[..i + 1] == entries[..i] + [entries[i]];
      if value != "" {
        var stored := StoreEntry(retMap, key, value);
        if stored.Failure? {
          ConvertFailureFinal(entries[..i + 1], entries[i + 1..]);
          assert entries[..i + 1] + entries[i + 1..] == entries;
          return stored;
        }
        retMap := stored.value;
      }
    }
    assert entries[..|entries|] == entries;
    r := Success(retMap);
  }
}
