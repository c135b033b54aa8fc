/**
 * PHP's ordered associative arrays, restricted to string keys: an array is
 * its entries in insertion order. The operations are the ones the
 * generators use: `$a[$k] = $v`, `$a[$k] ?? ...`, array_replace /
 * array_merge and array_filter.
 */
module PhpArray {
  import opened Wrappers

  /** Entries in insertion order; a well-formed array has each key once. */
  type Dict<V> = seq<(string, V)>

  /** A value in a details document: a string, or an array of strings (the readme sections). */
  datatype Value = Str(s: string) | Arr(a: Dict<string>)

  /** What array_filter() without a callback drops: '', "0" and the empty array. */
  predicate Falsy(v: Value) {
    match v
    case Str(s) => s == "" || s == "0"
    case Arr(a) => a == []
  }

  function Keys<V>(d: Dict<V>): (ks: seq<string>)
    ensures |ks| == |d|
    ensures forall i :: 0 <= i < |d| ==> ks[i] == d[i].0
  {
    seq(|d|, i requires 0 <= i < |d| => d[i].0)
  }

  lemma KeysOfPair<V>(a: string, x: V, b: string, y: V)
    ensures Keys([(a, x), (b, y)]) == [a, b]
  {
  }

  predicate Unique(ks: seq<string>) {
    forall i, j :: 0 <= i < j < |ks| ==> ks[i] != ks[j]
  }

  predicate WellFormed<V>(d: Dict<V>) {
    Unique(Keys(d))
  }

  /** The keys after the first of a list of distinct keys are distinct, and the first is not among them. */
  lemma UniqueCons(x: string, ks: seq<string>)
    requires Unique([x] + ks)
    ensures Unique(ks) && x !in ks
  {
    var xs := [x] + ks;
    forall i, j | 0 <= i < j < |ks| ensures ks[i] != ks[j] {
      assert xs[i + 1] == ks[i] && xs[j + 1] == ks[j];
    }
    forall j | 0 <= j < |ks| ensures ks[j] != x {
      assert xs[0] == x && xs[j + 1] == ks[j];
    }
  }

  /** `$d[$k] ?? null`: the value stored under k, if any. */
  function Get<V>(d: Dict<V>, k: string): (r: Option<V>)
    ensures r.None? <==> k !in Keys(d)
  {
    if d == [] then None
    else if d[0].0 == k then Some(d[0].1)
    else
      assert Keys(d) == [d[0].0] + Keys(d[1..]);
      Get(d[1..], k)
  }

  /** In an array with each key once, the lookup finds the entry stored under the key. */
  lemma {:induction false} GetAt<V>(d: Dict<V>, i: nat)
    requires WellFormed(d) && i < |d|
    ensures Get(d, d[i].0) == Some(d[i].1)
  {
    if i > 0 {
      assert Keys(d)[0] != Keys(d)[i];
      assert Keys(d[1..]) == Keys(d)[1..];
      assert d[1..][i - 1] == d[i];
      GetAt(d[1..], i - 1);
    }
  }

  /** The keys of an array with one entry put in front. */
  lemma KeysCons<V>(e: (string, V), d: Dict<V>)
    ensures Keys([e] + d) == [e.0] + Keys(d)
  {
  }

  /** Looking up an array with one entry put in front. */
  lemma GetCons<V>(e: (string, V), d: Dict<V>)
    ensures forall k :: Get([e] + d, k) == if e.0 == k then Some(e.1) else Get(d, k)
  {
    assert ([e] + d)[1..] == d;
  }

  /** `$d[$k] = $v`: a present key keeps its position and takes the new value; a new key goes last. */
  function Set<V>(d: Dict<V>, k: string, v: V): (r: Dict<V>)
    ensures Keys(r) == if k in Keys(d) then Keys(d) else Keys(d) + [k]
    ensures Get(r, k) == Some(v)
    ensures forall k' :: k' != k ==> Get(r, k') == Get(d, k')
  {
    if d == [] then [(k, v)]
    else
      var e, rest := d[0], d[1..];
      assert d == [e] + rest;
      if e.0 == k then
        KeysCons(e, rest);
        KeysCons((k, v), rest);
        GetCons(e, rest);
        GetCons((k, v), rest);
        [(k, v)] + rest
      else
        SetBehindKeys(e, rest, k, Set(rest, k, v));
        SetBehindGet(e, rest, k, v, Set(rest, k, v));
        [e] + Set(rest, k, v)
  }

  /** The keys after an assignment into the rest of an array, seen from the whole array. */
  lemma SetBehindKeys<V>(e: (string, V), rest: Dict<V>, k: string, t: Dict<V>)
    requires e.0 != k
    requires Keys(t) == if k in Keys(rest) then Keys(rest) else Keys(rest) + [k]
    ensures Keys([e] + t) == if k in Keys([e] + rest) then Keys([e] + rest) else Keys([e] + rest) + [k]
  {
    KeysCons(e, rest);
    KeysCons(e, t);
    assert k in Keys([e] + rest) <==> k in Keys(rest);
  }

  /** Lookups after an assignment into the rest of an array, seen from the whole array. */
  lemma SetBehindGet<V>(e: (string, V), rest: Dict<V>, k: string, v: V, t: Dict<V>)
    requires e.0 != k
    requires Get(t, k) == Some(v) && forall k' :: k' != k ==> Get(t, k') == Get(rest, k')
    ensures Get([e] + t, k) == Some(v) && forall k' :: k' != k ==> Get([e] + t, k') == Get([e] + rest, k')
  {
    GetCons(e, rest);
    GetCons(e, t);
  }

  /** Assigning a key the array does not have appends the entry. */
  lemma {:induction false} SetAppends<V>(d: Dict<V>, k: string, v: V)
    requires k !in Keys(d)
    ensures Set(d, k, v) == d + [(k, v)]
  {
    if d != [] {
      var e, rest := d[0], d[1..];
      assert d == [e] + rest;
      KeysCons(e, rest);
      SetAppends(rest, k, v);
      calc {
        Set(d, k, v);
        [e] + Set(rest, k, v);
        [e] + (rest + [(k, v)]);
        { assert [e] + (rest + [(k, v)]) == ([e] + rest) + [(k, v)]; }
        d + [(k, v)];
      }
    }
  }

  /** Two lists of distinct keys with no key in common stay distinct when joined. */
  lemma UniqueConcat(xs: seq<string>, ys: seq<string>)
    requires Unique(xs) && Unique(ys)
    requires forall k :: k in xs ==> k !in ys
    ensures Unique(xs + ys)
  {
    forall i, j | 0 <= i < j < |xs + ys| ensures (xs + ys)[i] != (xs + ys)[j] {
      if j < |xs| {
      } else if i >= |xs| {
        assert (xs + ys)[i] == ys[i - |xs|] && (xs + ys)[j] == ys[j - |xs|];
      } else {
        assert (xs + ys)[i] in xs && (xs + ys)[j] == ys[j - |xs|];
      }
    }
  }

  /** Keys in order of first occurrence, each once (the order is stated by DedupOrder). */
  function Dedup(ks: seq<string>): (r: seq<string>)
    ensures Unique(r)
    ensures forall k :: k in r <==> k in ks
  {
    if ks == [] then []
    else
      var n := |ks| - 1;
      var p := Dedup(ks[..n]);
      assert ks == ks[..n] + [ks[n]];
      if ks[n] in p then p else p + [ks[n]]
  }

  /** Where k first occurs in ks. */
  function FirstIndex(ks: seq<string>, k: string): (i: nat)
    requires k in ks
    ensures i < |ks| && ks[i] == k && k !in ks[..i]
  {
    if ks[0] == k then 0
    else
      var i := 1 + FirstIndex(ks[1..], k);
      assert ks[..i] == [ks[0]] + ks[1..][..i - 1];
      i
  }

  /** An occurrence of k with no k before it is the first one. */
  lemma FirstIndexIs(ks: seq<string>, k: string, i: nat)
    requires i < |ks| && ks[i] == k && k !in ks[..i]
    ensures FirstIndex(ks, k) == i
  {
  }

  /** The keys of r occur in ks, and in the order of their first occurrence there. */
  predicate InFirstOccurrenceOrder(r: seq<string>, ks: seq<string>) {
    forall i, j :: 0 <= i < j < |r| ==> r[i] in ks && r[j] in ks && FirstIndex(ks, r[i]) < FirstIndex(ks, r[j])
  }

  /** Dedup lists the keys in the order of their first occurrence in ks. */
  lemma {:induction false} DedupOrder(ks: seq<string>)
    ensures InFirstOccurrenceOrder(Dedup(ks), ks)
  {
    if ks != [] {
      var n := |ks| - 1;
      var p := Dedup(ks[..n]);
      var r := Dedup(ks);
      assert r == if ks[n] in p then p else p + [ks[n]];
      DedupOrder(ks[..n]);
      forall y | y in ks[..n]
        ensures y in ks && FirstIndex(ks, y) == FirstIndex(ks[..n], y) < n
      {
        var f := FirstIndex(ks[..n], y);
        assert ks[..n][..f] == ks[..f];
        FirstIndexIs(ks, y, f);
      }
      if ks[n] !in p {
        FirstIndexIs(ks, ks[n], n);
      }
      forall i, j | 0 <= i < j < |r|
        ensures r[i] in ks && r[j] in ks && FirstIndex(ks, r[i]) < FirstIndex(ks, r[j])
      {
        assert r[i] == p[i] && p[i] in ks[..n];
        if j < |p| {
          assert r[j] == p[j] && p[j] in ks[..n];
        } else {
          assert r[j] == ks[n];
        }
      }
    }
  }

  /** The value of the last entry of d under k: the one that survives a run of assignments. */
  function LastValue<V>(d: Dict<V>, k: string): (r: Option<V>)
    ensures r.None? <==> k !in Keys(d)
  {
    if d == [] then None
    else
      var n := |d| - 1;
      assert Keys(d) == Keys(d[..n]) + [d[n].0];
      if d[n].0 == k then Some(d[n].1) else LastValue(d[..n], k)
  }

  /** The entry that decides LastValue is the last one written under that key. */
  lemma {:induction false} LastValueIsLast<V>(d: Dict<V>, j: nat, k: string)
    requires j < |d| && d[j].0 == k
    requires forall i :: j < i < |d| ==> d[i].0 != k
    ensures LastValue(d, k) == Some(d[j].1)
    decreases |d|
  {
    var n := |d| - 1;
    if j < n {
      assert d[..n][j] == d[j];
      LastValueIsLast(d[..n], j, k);
    }
  }

  lemma {:induction false} DedupUnique(ks: seq<string>)
    requires Unique(ks)
    ensures Dedup(ks) == ks
  {
    if ks != [] {
      var n := |ks| - 1;
      DedupUnique(ks[..n]);
      assert ks == ks[..n] + [ks[n]];
    }
  }

  /**
   * array_replace($a, $b), which is also array_merge($a, $b) when every key
   * is a string: the entries of b are assigned into a in order.
   */
  function Merge<V>(a: Dict<V>, b: Dict<V>): (r: Dict<V>)
    ensures WellFormed(a) ==> Keys(r) == Dedup(Keys(a) + Keys(b))
    ensures forall k :: Get(r, k) == if k in Keys(b) then LastValue(b, k) else Get(a, k)
    decreases |b|
  {
    if b == [] then
      assert WellFormed(a) ==> Dedup(Keys(a)) == Keys(a) by {
        if WellFormed(a) { DedupUnique(Keys(a)); }
      }
      assert Keys(a) + Keys(b) == Keys(a);
      a
    else
      var n := |b| - 1;
      var m := Merge(a, b[..n]);
      assert b == b[..n] + [b[n]];
      MergeSnocKeys(a, b[..n], b[n], m);
      MergeSnocGet(a, b[..n], b[n], m);
      Set(m, b[n].0, b[n].1)
  }

  /** Merging one more entry assigns it: the keys. */
  lemma MergeSnocKeys<V>(a: Dict<V>, b: Dict<V>, e: (string, V), m: Dict<V>)
    requires WellFormed(a) ==> Keys(m) == Dedup(Keys(a) + Keys(b))
    ensures WellFormed(a) ==> Keys(Set(m, e.0, e.1)) == Dedup(Keys(a) + Keys(b + [e]))
  {
    var ks := Keys(a) + Keys(b);
    assert Keys(b + [e]) == Keys(b) + [e.0];
    assert Keys(a) + Keys(b + [e]) == ks + [e.0];
    assert (ks + [e.0])[..|ks|] == ks;
  }

  /** Merging one more entry assigns it: the lookups. */
  lemma MergeSnocGet<V>(a: Dict<V>, b: Dict<V>, e: (string, V), m: Dict<V>)
    requires forall k :: Get(m, k) == if k in Keys(b) then LastValue(b, k) else Get(a, k)
    ensures forall k :: Get(Set(m, e.0, e.1), k) == if k in Keys(b + [e]) then LastValue(b + [e], k) else Get(a, k)
  {
    assert Keys(b + [e]) == Keys(b) + [e.0];
    assert (b + [e])[..|b|] == b;
  }

  /** Assigning entries into a well-formed array keeps every key unique. */
  lemma MergeWellFormed<V>(a: Dict<V>, b: Dict<V>)
    requires WellFormed(a)
    ensures WellFormed(Merge(a, b))
  {
    assert Keys(Merge(a, b)) == Dedup(Keys(a) + Keys(b));
  }

  /** `xs` is `ys` with some entries left out, order kept. */
  predicate IsSubsequence(xs: seq<string>, ys: seq<string>)
    decreases |ys|
  {
    if xs == [] then true
    else if ys == [] then false
    else if xs[0] == ys[0] then IsSubsequence(xs[1..], ys[1..])
    else IsSubsequence(xs, ys[1..])
  }

  lemma {:induction false} SubsequenceTail(xs: seq<string>, ys: seq<string>)
    requires xs != [] && IsSubsequence(xs, ys)
    ensures IsSubsequence(xs[1..], ys)
    decreases |ys|, 0
  {
    if xs[0] != ys[0] {
      SubsequenceTail(xs, ys[1..]);
      SubsequenceCons(xs[1..], ys[1..], ys[0]);
      assert [ys[0]] + ys[1..] == ys;
    } else {
      SubsequenceCons(xs[1..], ys[1..], ys[0]);
      assert [ys[0]] + ys[1..] == ys;
    }
  }

  /** A subsequence of ys is a subsequence of any longer list ending in ys. */
  lemma {:induction false} SubsequenceCons(xs: seq<string>, ys: seq<string>, y: string)
    requires IsSubsequence(xs, ys)
    ensures IsSubsequence(xs, [y] + ys)
    decreases |ys|, 1
  {
    assert ([y] + ys)[1..] == ys;
    if xs != [] && xs[0] == y {
      SubsequenceTail(xs, ys);
    }
  }

  /** array_filter($d): drops every falsy entry and keeps the rest in order. */
  function Filter(d: Dict<Value>): (r: Dict<Value>)
    ensures forall i :: 0 <= i < |r| ==> !Falsy(r[i].1)
    ensures IsSubsequence(Keys(r), Keys(d))
    ensures forall k :: k in Keys(r) ==> k in Keys(d)
    ensures WellFormed(d) ==> WellFormed(r)
    ensures WellFormed(d) ==> forall k :: Get(r, k) == if Get(d, k).Some? && !Falsy(Get(d, k).value) then Get(d, k) else None
  {
    if d == [] then []
    else
      var e, rest := d[0], d[1..];
      var t := Filter(rest);
      assert d == [e] + rest;
      FilterOrder(e, rest, t);
      FilterGet(e, rest, t);
      if Falsy(e.1) then t else [e] + t
  }

  /** One step of array_filter: what it keeps is non-falsy, and in the array's order. */
  lemma FilterOrder(e: (string, Value), rest: Dict<Value>, t: Dict<Value>)
    requires forall i :: 0 <= i < |t| ==> !Falsy(t[i].1)
    requires IsSubsequence(Keys(t), Keys(rest)) && forall k :: k in Keys(t) ==> k in Keys(rest)
    ensures var r := if Falsy(e.1) then t else [e] + t;
      (forall i :: 0 <= i < |r| ==> !Falsy(r[i].1))
      && IsSubsequence(Keys(r), Keys([e] + rest))
      && forall k :: k in Keys(r) ==> k in Keys([e] + rest)
  {
    KeysCons(e, rest);
    if Falsy(e.1) {
      SubsequenceCons(Keys(t), Keys(rest), e.0);
    } else {
      KeysCons(e, t);
      assert ([e.0] + Keys(t))[1..] == Keys(t);
    }
  }

  /** One step of array_filter, looked up by key. */
  lemma FilterGet(e: (string, Value), rest: Dict<Value>, t: Dict<Value>)
    requires forall k :: k in Keys(t) ==> k in Keys(rest)
    requires WellFormed(rest) ==> WellFormed(t) && forall k :: Get(t, k) == if Get(rest, k).Some? && !Falsy(Get(rest, k).value) then Get(rest, k) else None
    ensures var r := if Falsy(e.1) then t else [e] + t;
      WellFormed([e] + rest) ==> WellFormed(r) && forall k :: Get(r, k) == if Get([e] + rest, k).Some? && !Falsy(Get([e] + rest, k).value) then Get([e] + rest, k) else None
  {
    if WellFormed([e] + rest) {
      KeysCons(e, rest);
      GetCons(e, rest);
      UniqueCons(e.0, Keys(rest));
      if !Falsy(e.1) {
        KeysCons(e, t);
        GetCons(e, t);
      }
    }
  }
}
