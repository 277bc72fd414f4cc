/** The helpers of util.go: the comment-tolerant JSON line reader, the
    configuration overlay `mergeMap`, the random helpers, `or`, and the
    index partition of `ops`. */
module Util {
  import opened Common
  import opened Strings

  // ---------------------------------------------------------------------
  // readJson: comment and trailing-comma stripping

  /** A trimmed line that `readJson` keeps: not blank and not a `//`
      comment. */
  predicate Keeps(line: string)
  {
    line != "" && !HasPrefix(line, "//")
  }

  /** A line that closes an object or an array. */
  predicate Closes(line: string)
  {
    HasPrefix(line, "}") || HasPrefix(line, "]")
  }

  /** Every line, trimmed. */
  function Trimmed(lines: seq<string>): (t: seq<string>)
    ensures |t| == |lines|
  {
    seq(|lines|, i requires 0 <= i < |lines| => TrimSpace(lines[i]))
  }

  /** The trimmed lines that are kept, in input order. */
  function KeptOf(t: seq<string>): (k: seq<string>)
    ensures |k| <= |t|
    decreases |t|
  {
    if |t| == 0 then []
    else KeptOf(t[..|t| - 1]) + (if Keeps(t[|t| - 1]) then [t[|t| - 1]] else [])
  }

  /** The lines `readJson` keeps, trimmed. */
  function Kept(lines: seq<string>): seq<string>
  {
    KeptOf(Trimmed(lines))
  }

  /** Kept line `i` as it is written out: without one trailing comma when
      the next kept line closes an object or an array. */
  function Adjusted(k: seq<string>, i: nat): string
    requires i < |k|
  {
    if i + 1 < |k| && Closes(k[i + 1]) then TrimSuffix(k[i], ",") else k[i]
  }

  /** Every kept line as it is written out. */
  function Emitted(k: seq<string>): seq<string>
  {
    seq(|k|, i requires 0 <= i < |k| => Adjusted(k, i))
  }

  /** The texts one after the other, with no separator. */
  function Concat(parts: seq<string>): string
    decreases |parts|
  {
    if |parts| == 0 then "" else Concat(parts[..|parts| - 1]) + parts[|parts| - 1]
  }

  /** Concatenating one more text appends it. */
  lemma ConcatSnoc(parts: seq<string>, x: string)
    ensures Concat(parts + [x]) == Concat(parts) + x
  {
    assert (parts + [x])[..|parts|] == parts;
  }

  /** A trimmed line is kept exactly when it occurs and is neither blank
      nor a comment. */
  lemma {:induction false} KeptOfMembers(t: seq<string>, x: string)
    ensures x in KeptOf(t) <==> x in t && Keeps(x)
    decreases |t|
  {
    if |t| > 0 {
      var init := t[..|t| - 1];
      KeptOfMembers(init, x);
      assert t == init + [t[|t| - 1]];
    }
  }

  /** A line is kept exactly when some input line trims to it and it is
      neither blank nor a comment. */
  lemma KeptMembers(lines: seq<string>, x: string)
    ensures x in Kept(lines) <==> exists i :: 0 <= i < |lines| && TrimSpace(lines[i]) == x && Keeps(x)
  {
    var t := Trimmed(lines);
    KeptOfMembers(t, x);
    if x in t {
      var i :| 0 <= i < |t| && t[i] == x;
      assert TrimSpace(lines[i]) == x;
    }
    if exists i :: 0 <= i < |lines| && TrimSpace(lines[i]) == x && Keeps(x) {
      var i :| 0 <= i < |lines| && TrimSpace(lines[i]) == x && Keeps(x);
      assert t[i] == x;
    }
  }

  /** Adding a kept line `x` writes out the previous kept line, without its
      trailing comma when `x` closes. */
  lemma EmittedStep(k: seq<string>, x: string)
    requires |k| > 0
    ensures Emitted(k + [x])[..|k|] == Emitted(k)[..|k| - 1] + [if Closes(x) then TrimSuffix(k[|k| - 1], ",") else k[|k| - 1]]
  {
    var k2 := k + [x];
    forall i | 0 <= i < |k| - 1
      ensures Adjusted(k2, i) == Adjusted(k, i)
    {
      assert k2[i + 1] == k[i + 1];
    }
  }

  /** Scanning one more trimmed line keeps it or not. */
  lemma KeptOfSnoc(t: seq<string>, i: nat)
    requires i < |t|
    ensures KeptOf(t[..i + 1]) == KeptOf(t[..i]) + if Keeps(t[i]) then [t[i]] else []
  {
    assert t[..i + 1][..i] == t[..i];
  }

  /** What `readJson` holds after some kept lines `k`: everything but the
      last kept line is written, and the last one is in hand. */
  predicate Holding(k: seq<string>, prev: string, out: string)
  {
    if |k| == 0 then out == "" && prev == ""
    else prev == k[|k| - 1] && out == Concat(Emitted(k)[..|k| - 1])
  }

  /** One more kept line: the line in hand, comma-trimmed when the new line
      closes, is written. */
  lemma HoldingStep(k: seq<string>, prev: string, out: string, line: string)
    requires Holding(k, prev, out)
    ensures Holding(k + [line], line, out + if Closes(line) then TrimSuffix(prev, ",") else prev)
  {
    var written := if Closes(line) then TrimSuffix(prev, ",") else prev;
    if |k| > 0 {
      EmittedStep(k, line);
      ConcatSnoc(Emitted(k)[..|k| - 1], written);
    } else {
      assert Emitted(k + [line])[..0] == [];
    }
  }

  /** At the end the line in hand completes the output. */
  lemma HoldingDone(k: seq<string>, prev: string, out: string)
    requires Holding(k, prev, out)
    ensures out + prev == Concat(Emitted(k))
  {
    if |k| > 0 {
      assert Emitted(k) == Emitted(k)[..|k| - 1] + [k[|k| - 1]];
      ConcatSnoc(Emitted(k)[..|k| - 1], prev);
    }
  }

  /** `readJson` over the scanned lines of its input. It keeps one line in
      hand: a kept line first trims a comma off the line in hand if it
      closes, then the line in hand is written and the new line takes its
      place; at the end the line in hand is written. */
  method ReadJson(lines: seq<string>) returns (out: string)
    ensures out == Concat(Emitted(Kept(lines)))
  {
    ghost var t := Trimmed(lines);
    ghost var k: seq<string> := [];
    out := "";
    var prev := "";
    var i := 0;
    while i < |lines|
      invariant 0 <= i <= |lines| && k == KeptOf(t[..i])
      invariant Holding(k, prev, out)
    {
      var line := TrimSpace(lines[i]);
      KeptOfSnoc(t, i);
      if line == "" || HasPrefix(line, "//") {
        i := i + 1;
        continue;
      }
      HoldingStep(k, prev, out, line);
      if HasPrefix(line, "}") || HasPrefix(line, "]") {
        prev := TrimSuffix(prev, ",");
      }
      out := out + prev;
      prev := line;
      k := k + [line];
      i := i + 1;
    }
    assert t[..i] == t;
    HoldingDone(k, prev, out);
    out := out + prev;
  }

  /** Without closing lines nothing is trimmed: the output is the kept
      lines, joined. */
  lemma NoClosersKeepsCommas(lines: seq<string>)
    requires forall i :: 0 <= i < |Kept(lines)| ==> !Closes(Kept(lines)[i])
    ensures Emitted(Kept(lines)) == Kept(lines)
  {
  }

  /** The comma before a closing line is dropped: `"a": 1,` followed by `}`
      is written as `"a": 1`. */
  lemma ClosingTrimsComma(k: seq<string>, i: nat, body: string)
    requires i + 1 < |k| && k[i] == body + "," && Closes(k[i + 1])
    ensures Emitted(k)[i] == body
  {
    assert HasSuffix(k[i], ",");
    assert TrimSuffix(k[i], ",") + "," == body + ",";
  }

  // ---------------------------------------------------------------------
  // mergeMap: overlay of decoded configuration objects

  /** A value as `encoding/json` decodes it into `interface{}`. An object
      (`map[string]interface{}`) is kept as its fields in the order the map
      is iterated. */
  datatype Json =
    | JNull
    | JBool(b: bool)
    | JNumber(text: string)
    | JString(s: string)
    | JArray(items: seq<Json>)
    | JObject(fields: seq<Field>)

  datatype Field = Field(key: string, value: Json)

  /** A map has each key once. */
  predicate UniqueKeys(fs: seq<Field>)
  {
    forall i, j :: 0 <= i < j < |fs| ==> fs[i].key != fs[j].key
  }

  /** `m[key]` with its presence flag. */
  function Lookup(fs: seq<Field>, key: string): (r: Option<Json>)
    ensures r.None? <==> forall i :: 0 <= i < |fs| ==> fs[i].key != key
    ensures r.Some? ==> exists i :: 0 <= i < |fs| && fs[i] == Field(key, r.value)
  {
    if |fs| == 0 then None
    else if fs[0].key == key then Some(fs[0].value)
    else
      var r := Lookup(fs[1..], key);
      assert forall i :: 1 <= i < |fs| ==> fs[i] == fs[1..][i - 1];
      r
  }

  /** `m[key] = value`: the entry is replaced in place, or added last. */
  function Set(fs: seq<Field>, key: string, value: Json): (r: seq<Field>)
    ensures forall k :: Lookup(r, k) == if k == key then Some(value) else Lookup(fs, k)
  {
    if |fs| == 0 then [Field(key, value)]
    else if fs[0].key == key then [Field(key, value)] + fs[1..]
    else
      var r := [fs[0]] + Set(fs[1..], key, value);
      assert r[1..] == Set(fs[1..], key, value);
      r
  }

  /** What `mergeMap` leaves in the first map, and whether it returned an
      error. */
  datatype Merged = Merged(fields: seq<Field>, failed: bool)

  /** `mergeMap(m1, m2)`, the keys of `m2` taken in iteration order. A key
      missing from `m1`, or whose new value is not an object, is
      overwritten; two objects are merged recursively, and an error of that
      inner merge is dropped (what it merged before failing stays); an
      object over a non-object stops with an error, keeping the keys
      already merged. Keys only in `m1` are never touched. */
  function MergeMap(m1: seq<Field>, m2: seq<Field>): (r: Merged)
    ensures forall k :: (forall i :: 0 <= i < |m2| ==> m2[i].key != k) ==> Lookup(r.fields, k) == Lookup(m1, k)
    decreases m2
  {
    if |m2| == 0 then Merged(m1, false)
    else
      var f := m2[0];
      var prior := Lookup(m1, f.key);
      var r :=
        if prior.None? || !f.value.JObject? then MergeMap(Set(m1, f.key, f.value), m2[1..])
        else if !prior.value.JObject? then Merged(m1, true)
        else MergeMap(Set(m1, f.key, JObject(MergeMap(prior.value.fields, f.value.fields).fields)), m2[1..]);
      assert forall i :: 1 <= i < |m2| ==> m2[i] == m2[1..][i - 1];
      r
  }

  /** The one case `mergeMap` refuses: an object over a non-object. */
  predicate Conflict(m1: seq<Field>, f: Field)
  {
    f.value.JObject? && Lookup(m1, f.key).Some? && !Lookup(m1, f.key).value.JObject?
  }

  /** The value a key of `m2` ends up with, given what `m1` held there. */
  function Overlay(prior: Option<Json>, v: Json): Json
  {
    if prior.Some? && v.JObject? && prior.value.JObject? then JObject(MergeMap(prior.value.fields, v.fields).fields)
    else v
  }

  /** With each key once, `mergeMap` fails exactly when some key of `m2`
      brings an object over a non-object of `m1`. */
  lemma {:induction false} MergeFailsOnConflict(m1: seq<Field>, m2: seq<Field>)
    requires UniqueKeys(m2)
    ensures MergeMap(m1, m2).failed <==> exists i :: 0 <= i < |m2| && Conflict(m1, m2[i])
    decreases |m2|
  {
    if |m2| > 0 {
      var f := m2[0];
      var rest := m2[1..];
      if !Conflict(m1, f) {
        var m1' := Set(m1, f.key, Overlay(Lookup(m1, f.key), f.value));
        assert MergeMap(m1, m2) == MergeMap(m1', rest);
        assert UniqueKeys(rest) by {
          forall i, j | 0 <= i < j < |rest| ensures rest[i].key != rest[j].key {
            assert rest[i] == m2[i + 1] && rest[j] == m2[j + 1];
          }
        }
        MergeFailsOnConflict(m1', rest);
        forall i | 0 <= i < |rest|
          ensures Conflict(m1', rest[i]) <==> Conflict(m1, m2[i + 1])
        {
          assert rest[i] == m2[i + 1] && m2[i + 1].key != f.key;
        }
        if exists i :: 0 <= i < |m2| && Conflict(m1, m2[i]) {
          var i :| 0 <= i < |m2| && Conflict(m1, m2[i]);
          assert Conflict(m1', rest[i - 1]);
        }
      }
    }
  }

  /** Key by key, a successful `mergeMap` leaves the overlay of `m2`'s value
      where `m2` has the key, and `m1`'s entry (or its absence) elsewhere. */
  lemma {:induction false} MergeKeywise(m1: seq<Field>, m2: seq<Field>, k: string)
    requires UniqueKeys(m2) && !MergeMap(m1, m2).failed
    ensures Lookup(MergeMap(m1, m2).fields, k) == match Lookup(m2, k)
                                                   case None => Lookup(m1, k)
                                                   case Some(v) => Some(Overlay(Lookup(m1, k), v))
    decreases |m2|
  {
    if |m2| > 0 {
      var f := m2[0];
      var rest := m2[1..];
      var m1' := Set(m1, f.key, Overlay(Lookup(m1, f.key), f.value));
      assert MergeMap(m1, m2) == MergeMap(m1', rest);
      assert forall i :: 0 <= i < |rest| ==> rest[i] == m2[i + 1];
      if k == f.key {
        assert forall i :: 0 <= i < |rest| ==> rest[i].key != k;
      } else {
        assert UniqueKeys(rest);
        MergeKeywise(m1', rest, k);
        assert Lookup(m2, k) == Lookup(rest, k);
      }
    }
  }

  /** No key of `m2` is in `m1`. */
  predicate Disjoint(m1: seq<Field>, m2: seq<Field>)
  {
    forall i, j :: 0 <= i < |m1| && 0 <= j < |m2| ==> m1[i].key != m2[j].key
  }

  /** Merging into a map that has none of the new keys appends the new
      fields: the first configuration file, merged into the empty map, is
      taken as it is. */
  lemma {:induction false} MergeFresh(m1: seq<Field>, m2: seq<Field>)
    requires UniqueKeys(m2) && Disjoint(m1, m2)
    ensures MergeMap(m1, m2) == Merged(m1 + m2, false)
    decreases |m2|
  {
    if |m2| > 0 {
      FreshShift(m1, m2);
      MergeFreshStep(m1, m2);
      MergeFresh(m1 + [m2[0]], m2[1..]);
      MoveFirst(m1, m2);
    }
  }

  /** Moving the head of `b` to the end of `a` keeps `a + b`. */
  lemma MoveFirst<T>(a: seq<T>, b: seq<T>)
    requires |b| > 0
    ensures (a + [b[0]]) + b[1..] == a + b
  {
    assert b == [b[0]] + b[1..];
  }

  /** Moving the first new field over keeps the keys unique and apart. */
  lemma FreshShift(m1: seq<Field>, m2: seq<Field>)
    requires |m2| > 0 && UniqueKeys(m2) && Disjoint(m1, m2)
    ensures UniqueKeys(m2[1..]) && Disjoint(m1 + [m2[0]], m2[1..])
  {
    var m1', rest := m1 + [m2[0]], m2[1..];
    forall i, j | 0 <= i < j < |rest| ensures rest[i].key != rest[j].key {
      assert rest[i] == m2[i + 1] && rest[j] == m2[j + 1];
    }
    forall i, j | 0 <= i < |m1'| && 0 <= j < |rest|
      ensures m1'[i].key != rest[j].key
    {
      assert rest[j] == m2[j + 1];
      if i < |m1| {
        assert m1'[i] == m1[i];
      } else {
        assert m1'[i] == m2[0];
      }
    }
  }

  /** A fresh first field is appended. */
  lemma MergeFreshStep(m1: seq<Field>, m2: seq<Field>)
    requires |m2| > 0 && Disjoint(m1, m2)
    ensures MergeMap(m1, m2) == MergeMap(m1 + [m2[0]], m2[1..])
  {
    assert Lookup(m1, m2[0].key).None?;
    SetAppends(m1, m2[0].key, m2[0].value);
  }

  /** Setting a key the map does not have adds it last. */
  lemma {:induction false} SetAppends(fs: seq<Field>, key: string, value: Json)
    requires forall i :: 0 <= i < |fs| ==> fs[i].key != key
    ensures Set(fs, key, value) == fs + [Field(key, value)]
  {
    if |fs| > 0 {
      SetAppends(fs[1..], key, value);
      assert fs == [fs[0]] + fs[1..];
    }
  }

  // ---------------------------------------------------------------------
  // randInt, randomChoice, randomHost

  /** `rand.Intn(n)` with its result given: the draw, reduced below `n`. */
  function Intn(n: int, draw: nat): (r: int)
    requires n > 0
    ensures 0 <= r < n
  {
    draw % n
  }

  /** `randInt(l, u)`, or `None` where `rand.Intn(u - l)` panics because
      `u <= l`. */
  function RandInt(l: int, u: int, draw: nat): (r: Option<int>)
    ensures r.None? <==> u <= l
    ensures r.Some? ==> l <= r.value < u
  {
    if u - l <= 0 then None else Some(Intn(u - l, draw) + l)
  }

  /** Every value of `[l, u)` is drawn by some draw. */
  lemma RandIntReaches(l: int, u: int, x: int)
    requires l <= x < u
    ensures exists draw: nat :: RandInt(l, u, draw) == Some(x)
  {
    assert Intn(u - l, x - l) == x - l;
    assert RandInt(l, u, x - l) == Some(x);
  }

  /** `randomChoice(a)`, or `None` where an empty `a` panics. */
  function RandomChoice<T>(a: seq<T>, draw: nat): (r: Option<T>)
    ensures r.None? <==> |a| == 0
    ensures r.Some? ==> r.value in a
  {
    if |a| == 0 then None else Some(a[Intn(|a|, draw)])
  }

  /** Every element is chosen by some draw. */
  lemma RandomChoiceReaches<T>(a: seq<T>, i: nat)
    requires i < |a|
    ensures exists draw: nat :: RandomChoice(a, draw) == Some(a[i])
  {
    assert Intn(|a|, i) == i;
    assert RandomChoice(a, i) == Some(a[i]);
  }

  /** A label of `randomHost`: three to six letters from 'a' to 'y'; the
      upper bound 122 of `randInt(97, 122)` is exclusive, so 'z' never
      appears. */
  predicate HostLabel(s: string)
  {
    3 <= |s| <= 6 && forall j :: 0 <= j < |s| ==> 'a' <= s[j] <= 'y'
  }

  /** `randomHost`, drawing in turn the number of labels, then for each
      label its length and its letters. At most 1 + 3 * 7 draws are used. */
  method RandomHost(draws: seq<nat>) returns (host: string, labels: seq<string>)
    requires |draws| >= 22
    ensures 2 <= |labels| <= 3
    ensures forall i :: 0 <= i < |labels| ==> HostLabel(labels[i])
    ensures host == Join(labels, ".")
  {
    var n := RandInt(2, 4, draws[0]).value;
    var used := 1;
    labels := [];
    while |labels| < n
      invariant |labels| <= n && used <= 1 + 7 * |labels|
      invariant forall i :: 0 <= i < |labels| ==> HostLabel(labels[i])
    {
      var m := RandInt(3, 7, draws[used]).value;
      used := used + 1;
      var b := "";
      while |b| < m
        invariant |b| <= m && used <= 2 + 7 * |labels| + |b|
        invariant forall j :: 0 <= j < |b| ==> 'a' <= b[j] <= 'y'
      {
        var c := RandInt(97, 122, draws[used]).value;
        b := b + [c as char];
        used := used + 1;
      }
      labels := labels + [b];
    }
    host := Join(labels, ".");
  }

  /** The host splits at its dots back into its labels. */
  lemma RandomHostLabels(labels: seq<string>)
    requires 2 <= |labels| && forall i :: 0 <= i < |labels| ==> HostLabel(labels[i])
    ensures Split(Join(labels, "."), '.') == labels
  {
    forall i | 0 <= i < |labels| ensures '.' !in labels[i] {
      assert forall j :: 0 <= j < |labels[i]| ==> labels[i][j] != '.';
    }
    SplitJoin(labels, '.');
  }

  // ---------------------------------------------------------------------
  // or

  /** `or(vals...)`: the zero value exactly when every argument is zero. */
  function Or<T(==)>(zero: T, vals: seq<T>): (r: T)
    ensures r == zero <==> forall i :: 0 <= i < |vals| ==> vals[i] == zero
  {
    if |vals| == 0 then zero
    else if vals[0] != zero then vals[0]
    else
      var r := Or(zero, vals[1..]);
      assert forall i :: 1 <= i < |vals| ==> vals[i] == vals[1..][i - 1];
      r
  }

  /** A non-zero result of `or` is its first non-zero argument. */
  lemma {:induction false} OrIsFirst<T>(zero: T, vals: seq<T>)
    ensures Or(zero, vals) != zero ==>
              exists i :: 0 <= i < |vals| && vals[i] == Or(zero, vals) && forall j :: 0 <= j < i ==> vals[j] == zero
  {
    if |vals| > 0 && vals[0] == zero {
      var rest := vals[1..];
      OrIsFirst(zero, rest);
      if Or(zero, rest) != zero {
        var i :| 0 <= i < |rest| && rest[i] == Or(zero, rest) && forall j :: 0 <= j < i ==> rest[j] == zero;
        assert vals[i + 1] == Or(zero, vals);
        assert forall j :: 0 <= j < i + 1 ==> vals[j] == zero by {
          forall j | 0 <= j < i + 1 ensures vals[j] == zero {
            if j > 0 {
              assert vals[j] == rest[j - 1];
            }
          }
        }
      }
    } else if |vals| > 0 {
      assert vals[0] == Or(zero, vals);
    }
  }

  // ---------------------------------------------------------------------
  // ops: index partition among workers

  /** The indices worker `i` of `threads` visits, `[s, e)`: chunks of
      `count / threads` (Go's truncating division), the last one ending at
      `count`. */
  function Chunk(count: int, threads: int, i: int): (int, int)
    requires 0 <= i < threads
  {
    var q := GoDiv(count, threads);
    (q * i, if i == threads - 1 then count else q * (i + 1))
  }

  /** The quotient of a non-negative count lies between zero and the
      count divided evenly. */
  lemma ChunkSizes(count: int, threads: int, i: int)
    requires count >= 0 && 0 <= i < threads
    ensures var q := GoDiv(count, threads); 0 <= q * i <= q * (i + 1) <= q * threads <= count
  {
    var q := GoDiv(count, threads);
    assert q >= 0;
    MulLe(0, i, q);
    MulLe(i, i + 1, q);
    MulLe(i + 1, threads, q);
  }

  /** With a negative count every chunk is empty. */
  lemma NegativeChunksEmpty(count: int, threads: int, i: int)
    requires count < 0 && 0 <= i < threads
    ensures Chunk(count, threads, i).1 <= Chunk(count, threads, i).0 <= 0
  {
    var q := GoDiv(count, threads);
    var r := GoRem(count, threads);
    assert q * threads == count - r;
    assert q <= 0 by {
      if q > 0 {
        MulLe(1, q, threads);
      }
    }
    assert q * i <= 0 by {
      MulLe(q, 0, i);
    }
    assert q * (i + 1) <= q * i;
    if i == threads - 1 {
      assert q * i == q * threads - q;
    }
  }

  /** `ops(count, threads, op)`: the `(index, worker)` calls of `op`, worker
      by worker. `wg.Add` panics on a negative worker count; with none, no
      call is made. Each index of `[0, count)` is visited exactly once, by
      the worker whose chunk holds it. */
  method Ops(count: int, threads: int) returns (panicked: bool, visits: seq<(int, int)>)
    ensures panicked <==> threads < 0
    ensures !panicked ==> |visits| == if threads > 0 && count > 0 then count else 0
    ensures forall k :: 0 <= k < |visits| ==>
              visits[k].0 == k && 0 <= visits[k].1 < threads
              && Chunk(count, threads, visits[k].1).0 <= k < Chunk(count, threads, visits[k].1).1
  {
    visits := [];
    if threads < 0 {
      return true, visits;
    }
    panicked := false;
    var i := 0;
    while i < threads
      invariant 0 <= i <= threads
      invariant |visits| == if count <= 0 || i == 0 then 0 else if i == threads then count else GoDiv(count, threads) * i
      invariant forall k :: 0 <= k < |visits| ==>
                  visits[k].0 == k && 0 <= visits[k].1 < i
                  && Chunk(count, threads, visits[k].1).0 <= k < Chunk(count, threads, visits[k].1).1
    {
      var (s, e) := Chunk(count, threads, i);
      if count >= 0 {
        ChunkSizes(count, threads, i);
      }
      if count >= 0 {
        var j := s;
        while j < e
          invariant s <= j <= e && |visits| == j
          invariant forall k :: 0 <= k < |visits| ==>
                      visits[k].0 == k && 0 <= visits[k].1 <= i
                      && Chunk(count, threads, visits[k].1).0 <= k < Chunk(count, threads, visits[k].1).1
        {
          visits := visits + [(j, i)];
          j := j + 1;
        }
      }
      i := i + 1;
    }
  }
}
