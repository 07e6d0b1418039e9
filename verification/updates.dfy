/** Maps built by a sequence of keyed writes, as Go code builds an
    `http.Header` with `Header.Set` in a loop or fills a `map[string]bool`
    entry by entry: the left-to-right fold of the writes, and the
    "last write wins" reading that characterises it. */
module Updates {
  import opened Wrappers

  /** One step of such a loop: either a write of `value` under `key`, or a
      step that leaves the map alone. */
  datatype Update<K(==), V> = Write(key: K, value: V) | Keep {
    predicate WritesTo(k: K) {
      Write? && key == k
    }
  }

  function Apply<K(==), V>(m: map<K, V>, u: Update<K, V>): map<K, V> {
    match u
    case Write(k, v) => m[k := v]
    case Keep => m
  }

  /** The map after performing the updates in order, starting from `m`. */
  function Fold<K(==), V>(m: map<K, V>, ups: seq<Update<K, V>>): map<K, V>
    decreases |ups|
  {
    if ups == [] then m else Fold(Apply(m, ups[0]), ups[1..])
  }

  /** Position `i` holds the last write to `k`. */
  predicate IsLastWrite<K(==), V>(ups: seq<Update<K, V>>, k: K, i: int) {
    && 0 <= i < |ups|
    && ups[i].WritesTo(k)
    && forall j :: i < j < |ups| ==> !ups[j].WritesTo(k)
  }

  /** The value of the last write to `k`, scanning from the end; `None` when
      no update writes to `k`. */
  function LastWrite<K(==), V>(ups: seq<Update<K, V>>, k: K): (r: Option<V>)
    ensures r.None? <==> forall i :: 0 <= i < |ups| ==> !ups[i].WritesTo(k)
    ensures forall i :: IsLastWrite(ups, k, i) ==> r == Some(ups[i].value)
    ensures r.Some? ==> exists i :: 0 <= i < |ups| && ups[i].WritesTo(k) && r.value == ups[i].value
    decreases |ups|
  {
    if ups == [] then None
    else
      var u := ups[|ups| - 1];
      if u.WritesTo(k) then Some(u.value)
      else
        var r := LastWrite(ups[..|ups| - 1], k);
        assert forall i :: IsLastWrite(ups, k, i) ==> IsLastWrite(ups[..|ups| - 1], k, i);
        r
  }

  lemma {:induction false} FoldSnoc<K, V>(m: map<K, V>, ups: seq<Update<K, V>>, u: Update<K, V>)
    ensures Fold(m, ups + [u]) == Apply(Fold(m, ups), u)
    decreases |ups|
  {
    if ups == [] {
      assert [u][1..] == [];
    } else {
      assert (ups + [u])[1..] == ups[1..] + [u];
      FoldSnoc(Apply(m, ups[0]), ups[1..], u);
    }
  }

  /** The fold keeps, for every key, the last value written to it, and the
      starting entry for keys no update writes. */
  lemma {:induction false} LastWriteWins<K, V>(m: map<K, V>, ups: seq<Update<K, V>>, k: K)
    ensures LastWrite(ups, k).Some? ==> k in Fold(m, ups) && Fold(m, ups)[k] == LastWrite(ups, k).value
    ensures LastWrite(ups, k).None? ==> (k in Fold(m, ups) <==> k in m)
    ensures LastWrite(ups, k).None? && k in m ==> Fold(m, ups)[k] == m[k]
    decreases |ups|
  {
    if ups != [] {
      var init := ups[..|ups| - 1];
      var u := ups[|ups| - 1];
      assert ups == init + [u];
      FoldSnoc(m, init, u);
      LastWriteWins(m, init, k);
    }
  }
}
