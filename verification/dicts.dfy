/**
 * Python dictionaries whose iteration order or key objects the scripts can
 * observe, as sequences of (key, value) entries in insertion order.  A key is
 * compared either as a plain `str` or, for the scripts that wrap names in
 * `nsapi.Name`, through its normal form.  Assigning to a key that is already
 * present keeps the entry's position and its original key object and replaces
 * the value; a new key is appended.
 */
module Dicts {
  import opened Outcomes
  import opened Core

  /** How the keys of a dictionary are compared. */
  datatype KeyKind = Plain | ByName

  /** The form in which a key is compared (and hashed). */
  function Norm(kind: KeyKind, k: string): string {
    if kind == ByName then Normal(k) else k
  }

  type Dict<V> = seq<(string, V)>

  function Keys<V>(d: Dict<V>): (r: seq<string>)
    ensures |r| == |d| && forall i :: 0 <= i < |d| ==> r[i] == d[i].0
  {
    seq(|d|, i requires 0 <= i < |d| => d[i].0)
  }

  function Values<V>(d: Dict<V>): (r: seq<V>)
    ensures |r| == |d| && forall i :: 0 <= i < |d| ==> r[i] == d[i].1
  {
    seq(|d|, i requires 0 <= i < |d| => d[i].1)
  }

  /** The keys in the form in which they are compared. */
  function NormKeys<V>(kind: KeyKind, d: Dict<V>): (r: seq<string>)
    ensures |r| == |d| && forall i :: 0 <= i < |d| ==> r[i] == Norm(kind, d[i].0)
  {
    seq(|d|, i requires 0 <= i < |d| => Norm(kind, d[i].0))
  }

  /** No two entries have keys that compare equal. */
  predicate Distinct(keys: seq<string>) {
    forall i, j :: 0 <= i < j < |keys| ==> keys[i] != keys[j]
  }

  predicate Unique<V>(kind: KeyKind, d: Dict<V>) {
    Distinct(NormKeys(kind, d))
  }

  /** The position of the first occurrence of `k` in `keys`. */
  function Find(keys: seq<string>, k: string): (r: Option<nat>)
    ensures r.Some? ==> r.value < |keys| && keys[r.value] == k
    ensures r.Some? ==> forall j :: 0 <= j < r.value ==> keys[j] != k
    ensures r.None? <==> k !in keys
    decreases |keys|
  {
    if keys == [] then None
    else if keys[0] == k then Some(0)
    else
      match Find(keys[1..], k)
      case None => None
      case Some(i) => Some(i + 1)
  }

  /** `Find` answers the first matching position, so that position determines it. */
  lemma {:induction false} FindIs(keys: seq<string>, q: string, i: nat)
    requires i < |keys| && keys[i] == q
    requires forall j :: 0 <= j < i ==> keys[j] != q
    ensures Find(keys, q) == Some(i)
  {
  }

  /** Finding a key in a longer key list: the first match in the prefix wins. */
  lemma {:induction false} FindPrefix(a: seq<string>, b: seq<string>, q: string)
    ensures Find(a, q).Some? ==> Find(a + b, q) == Find(a, q)
    ensures Find(a, q).None? && Find(b, q).Some? ==> Find(a + b, q) == Some(|a| + Find(b, q).value)
  {
    var ab := a + b;
    match Find(a, q)
    case Some(i) =>
      assert ab[i] == a[i];
      FindIs(ab, q, i);
    case None =>
      match Find(b, q)
      case Some(p) =>
        assert ab[|a| + p] == b[p];
        assert forall j :: 0 <= j < |a| ==> ab[j] == a[j];
        FindIs(ab, q, |a| + p);
      case None =>
  }

  /** Python's `k in d`. */
  predicate In<V>(kind: KeyKind, d: Dict<V>, k: string) {
    Norm(kind, k) in NormKeys(kind, d)
  }

  /** Python's `d[k]`, which raises KeyError for an absent key. */
  function Get<V>(kind: KeyKind, d: Dict<V>, k: string): (r: Result<V>)
    ensures r.Err? <==> !In(kind, d, k)
    ensures r.Err? ==> r.error == KeyError(k)
    ensures r.Ok? ==> exists i :: 0 <= i < |d| && Norm(kind, d[i].0) == Norm(kind, k) && d[i].1 == r.value
  {
    match Find(NormKeys(kind, d), Norm(kind, k))
    case None => Err(KeyError(k))
    case Some(i) => Ok(d[i].1)
  }

  /** Python's `d[k] = v`. */
  function Put<V>(kind: KeyKind, d: Dict<V>, k: string, v: V): (r: Dict<V>)
    ensures In(kind, d, k) ==> Keys(r) == Keys(d) && NormKeys(kind, r) == NormKeys(kind, d)
    ensures !In(kind, d, k) ==> r == d + [(k, v)]
    ensures Unique(kind, d) ==> Unique(kind, r)
  {
    match Find(NormKeys(kind, d), Norm(kind, k))
    case Some(i) =>
      var r := d[i := (d[i].0, v)];
      assert Keys(r) == Keys(d);
      assert NormKeys(kind, r) == NormKeys(kind, d);
      r
    case None =>
      var r := d + [(k, v)];
      assert NormKeys(kind, r) == NormKeys(kind, d) + [Norm(kind, k)];
      r
  }

  /** An assignment leaves every entry as it was, or gives it the new value. */
  lemma PutEntries<V>(kind: KeyKind, d: Dict<V>, k: string, v: V)
    ensures forall j :: 0 <= j < |Put(kind, d, k, v)| ==>
      (j < |d| && Put(kind, d, k, v)[j] == d[j]) || Put(kind, d, k, v)[j].1 == v
  {
  }

  /** An assigned key is present afterwards. */
  lemma PutIn<V>(kind: KeyKind, d: Dict<V>, k: string, v: V)
    ensures In(kind, Put(kind, d, k, v), k)
  {
    if !In(kind, d, k) {
      assert NormKeys(kind, Put(kind, d, k, v))[|d|] == Norm(kind, k);
    }
  }

  /** Reading back after an assignment: the assigned key gives the new value, any
      other key what it gave before. */
  lemma {:induction false} GetPut<V>(kind: KeyKind, d: Dict<V>, k: string, v: V, q: string)
    requires Unique(kind, d)
    ensures In(kind, Put(kind, d, k, v), q) <==> Norm(kind, q) == Norm(kind, k) || In(kind, d, q)
    ensures Get(kind, Put(kind, d, k, v), q) ==
      if Norm(kind, q) == Norm(kind, k) then Ok(v) else Get(kind, d, q)
  {
    var r := Put(kind, d, k, v);
    var keys := NormKeys(kind, d);
    if In(kind, d, k) {
      var i := Find(keys, Norm(kind, k)).value;
      if Norm(kind, q) != Norm(kind, k) {
        match Find(keys, Norm(kind, q))
        case None =>
        case Some(p) =>
          assert r[p] == d[p];
      }
    } else {
      assert NormKeys(kind, r) == keys + [Norm(kind, k)];
      FindPrefix(keys, [Norm(kind, k)], Norm(kind, q));
      if Norm(kind, q) == Norm(kind, k) {
        assert Find([Norm(kind, k)], Norm(kind, q)) == Some(0);
      }
    }
  }

  /** The assigned key reads back the new value. */
  lemma GetPutSame<V>(kind: KeyKind, d: Dict<V>, k: string, v: V, q: string)
    requires Unique(kind, d) && Norm(kind, q) == Norm(kind, k)
    ensures Get(kind, Put(kind, d, k, v), q) == Ok(v)
  {
    GetPut(kind, d, k, v, q);
  }

  /** Any other key reads back what it read before. */
  lemma GetPutOther<V>(kind: KeyKind, d: Dict<V>, k: string, v: V, q: string)
    requires Unique(kind, d) && Norm(kind, q) != Norm(kind, k)
    ensures Get(kind, Put(kind, d, k, v), q) == Get(kind, d, q)
  {
    GetPut(kind, d, k, v, q);
  }

  /** A dict comprehension over `pairs`: each pair assigned in turn. */
  function FromPairs<V>(kind: KeyKind, pairs: seq<(string, V)>): (r: Dict<V>)
    ensures Unique(kind, r)
    decreases |pairs|
  {
    if pairs == [] then []
    else
      var last := pairs[|pairs| - 1];
      Put(kind, FromPairs(kind, pairs[..|pairs| - 1]), last.0, last.1)
  }

  /** One more pair is one more assignment. */
  lemma FromPairsSnoc<V>(kind: KeyKind, pairs: seq<(string, V)>, p: (string, V))
    ensures FromPairs(kind, pairs + [p]) == Put(kind, FromPairs(kind, pairs), p.0, p.1)
  {
    assert (pairs + [p])[..|pairs|] == pairs;
  }

  /** The key `q` was assigned by pair `i` and never again afterwards. */
  predicate LastAssignment<V>(kind: KeyKind, pairs: seq<(string, V)>, q: string, i: int) {
    0 <= i < |pairs| && Norm(kind, pairs[i].0) == Norm(kind, q) &&
    forall j :: i < j < |pairs| ==> Norm(kind, pairs[j].0) != Norm(kind, q)
  }

  /** After an assignment, a key is present when it was, or when it is the assigned one. */
  lemma InPut<V>(kind: KeyKind, d: Dict<V>, k: string, v: V, q: string)
    ensures In(kind, Put(kind, d, k, v), q) <==> Norm(kind, q) == Norm(kind, k) || In(kind, d, q)
  {
    if !In(kind, d, k) {
      assert NormKeys(kind, d + [(k, v)]) == NormKeys(kind, d) + [Norm(kind, k)];
      InSnoc(NormKeys(kind, d), Norm(kind, k), Norm(kind, q));
    }
  }

  lemma InSnoc(keys: seq<string>, last: string, k: string)
    ensures k in keys + [last] <==> k in keys || k == last
  {
  }

  /** A comprehension holds exactly the keys it assigned. */
  lemma {:induction false} FromPairsIn<V>(kind: KeyKind, pairs: seq<(string, V)>, q: string)
    ensures In(kind, FromPairs(kind, pairs), q) <==> Norm(kind, q) in NormKeys(kind, pairs)
    decreases |pairs|
  {
    if pairs != [] {
      var n := |pairs| - 1;
      var init := pairs[..n];
      FromPairsIn(kind, init, q);
      FromPairsUnfold(kind, pairs);
      InPut(kind, FromPairs(kind, init), pairs[n].0, pairs[n].1, q);
      NormKeysInit(kind, pairs);
      InSnoc(NormKeys(kind, init), Norm(kind, pairs[n].0), Norm(kind, q));
    }
  }

  /** The keys of a comprehension over collected pairs are the keys of the
      results. */
  lemma CollectedKeys<V>(rs: seq<Result<(string, V)>>, q: string)
    requires Collect(rs).Ok?
    ensures In(Plain, FromPairs(Plain, Collect(rs).value), q) <==> exists i :: 0 <= i < |rs| && rs[i].value.0 == q
  {
    var pairs := Collect(rs).value;
    FromPairsIn(Plain, pairs, q);
    if exists i :: 0 <= i < |rs| && rs[i].value.0 == q {
      var i :| 0 <= i < |rs| && rs[i].value.0 == q;
      assert NormKeys(Plain, pairs)[i] == q;
    }
    if q in NormKeys(Plain, pairs) {
      var i :| 0 <= i < |pairs| && NormKeys(Plain, pairs)[i] == q;
      assert rs[i].value == pairs[i];
    }
  }

  /** A non-empty comprehension is the one over all pairs but the last, plus
      the last assignment. */
  lemma FromPairsUnfold<V>(kind: KeyKind, pairs: seq<(string, V)>)
    requires pairs != []
    ensures var n := |pairs| - 1;
      FromPairs(kind, pairs) == Put(kind, FromPairs(kind, pairs[..n]), pairs[n].0, pairs[n].1)
  {
  }

  /** The keys of a non-empty dict are those of all entries but the last, then the last one's. */
  lemma NormKeysInit<V>(kind: KeyKind, d: Dict<V>)
    requires d != []
    ensures NormKeys(kind, d) == NormKeys(kind, d[..|d| - 1]) + [Norm(kind, d[|d| - 1].0)]
  {
  }

  /** A last assignment before the final pair is also the last one of the pairs before it. */
  lemma LastAssignmentInit<V>(kind: KeyKind, pairs: seq<(string, V)>, q: string, i: nat)
    requires LastAssignment(kind, pairs, q, i) && i < |pairs| - 1
    ensures LastAssignment(kind, pairs[..|pairs| - 1], q, i)
    ensures Norm(kind, pairs[|pairs| - 1].0) != Norm(kind, q)
  {
    var init := pairs[..|pairs| - 1];
    assert forall j :: 0 <= j < |init| ==> init[j] == pairs[j];
  }

  /** Each key of a comprehension holds the value it was assigned last. */
  lemma {:induction false} FromPairsLast<V>(kind: KeyKind, pairs: seq<(string, V)>, q: string, i: nat)
    requires LastAssignment(kind, pairs, q, i)
    ensures Get(kind, FromPairs(kind, pairs), q) == Ok(pairs[i].1)
    decreases |pairs|
  {
    var n := |pairs| - 1;
    if i < n {
      LastAssignmentInit(kind, pairs, q, i);
      FromPairsLast(kind, pairs[..n], q, i);
      assert pairs[..n][i] == pairs[i];
      FromPairsKeep(kind, pairs, q, pairs[i].1);
    } else {
      FromPairsRead(kind, pairs, q);
    }
  }

  /** A last pair with another key leaves the key's value as it was. */
  lemma FromPairsKeep<V>(kind: KeyKind, pairs: seq<(string, V)>, q: string, v: V)
    requires pairs != [] && Norm(kind, pairs[|pairs| - 1].0) != Norm(kind, q)
    requires Get(kind, FromPairs(kind, pairs[..|pairs| - 1]), q) == Ok(v)
    ensures Get(kind, FromPairs(kind, pairs), q) == Ok(v)
  {
    FromPairsRead(kind, pairs, q);
  }

  /** The last pair decides its own key; every other key reads as before it. */
  lemma FromPairsRead<V>(kind: KeyKind, pairs: seq<(string, V)>, q: string)
    requires pairs != []
    ensures var n := |pairs| - 1;
      Get(kind, FromPairs(kind, pairs), q) ==
        if Norm(kind, pairs[n].0) == Norm(kind, q) then Ok(pairs[n].1) else Get(kind, FromPairs(kind, pairs[..n]), q)
  {
    var n := |pairs| - 1;
    FromPairsUnfold(kind, pairs);
    if Norm(kind, pairs[n].0) == Norm(kind, q) {
      GetPutSame(kind, FromPairs(kind, pairs[..n]), pairs[n].0, pairs[n].1, q);
    } else {
      GetPutOther(kind, FromPairs(kind, pairs[..n]), pairs[n].0, pairs[n].1, q);
    }
  }

  /** Whatever a comprehension holds for a key was assigned to that key by some pair. */
  lemma {:induction false} FromPairsValue<V>(kind: KeyKind, pairs: seq<(string, V)>, q: string, v: V)
    requires Get(kind, FromPairs(kind, pairs), q) == Ok(v)
    ensures exists j :: 0 <= j < |pairs| && Norm(kind, pairs[j].0) == Norm(kind, q) && pairs[j].1 == v
    decreases |pairs|
  {
    assert pairs != [];
    var n := |pairs| - 1;
    var init := pairs[..n];
    FromPairsRead(kind, pairs, q);
    if Norm(kind, q) == Norm(kind, pairs[n].0) {
      assert pairs[n].1 == v;
    } else {
      FromPairsValue(kind, init, q, v);
      var j :| 0 <= j < |init| && Norm(kind, init[j].0) == Norm(kind, q) && init[j].1 == v;
      assert pairs[j] == init[j];
    }
  }

  /** A comprehension over pairs whose keys are already distinct changes nothing. */
  lemma {:induction false} FromPairsDistinct<V>(kind: KeyKind, pairs: seq<(string, V)>)
    requires Unique(kind, pairs)
    ensures FromPairs(kind, pairs) == pairs
    decreases |pairs|
  {
    if pairs != [] {
      var n := |pairs| - 1;
      var init := pairs[..n];
      NormKeysInit(kind, pairs);
      DistinctSnoc(NormKeys(kind, init), Norm(kind, pairs[n].0));
      FromPairsDistinct(kind, init);
      FromPairsUnfold(kind, pairs);
      PutNewLast(kind, pairs);
    }
  }

  /** Assigning the last pair's key, new to the pairs before it, gives back all the pairs. */
  lemma PutNewLast<V>(kind: KeyKind, pairs: seq<(string, V)>)
    requires pairs != [] && Norm(kind, pairs[|pairs| - 1].0) !in NormKeys(kind, pairs[..|pairs| - 1])
    ensures var n := |pairs| - 1; Put(kind, pairs[..n], pairs[n].0, pairs[n].1) == pairs
  {
    var n := |pairs| - 1;
    assert pairs[..n] + [pairs[n]] == pairs;
  }

  /** Keys with one more at the end are distinct when the first ones are and
      the new one is not among them. */
  lemma DistinctSnoc(keys: seq<string>, k: string)
    requires Distinct(keys + [k])
    ensures Distinct(keys) && k !in keys
  {
    var all := keys + [k];
    forall i, j | 0 <= i < j < |keys| ensures keys[i] != keys[j] {
      assert all[i] == keys[i] && all[j] == keys[j];
    }
    forall i | 0 <= i < |keys| ensures keys[i] != k {
      assert all[i] == keys[i] && all[|keys|] == k;
    }
  }

  /** A plain key that is present names one entry, and that entry holds the
      value read for it. */
  lemma EntryOf<V>(d: Dict<V>, k: string) returns (i: nat)
    requires Unique(Plain, d) && In(Plain, d, k)
    ensures i < |d| && d[i].0 == k && Get(Plain, d, k) == Ok(d[i].1)
  {
    i := Find(NormKeys(Plain, d), Norm(Plain, k)).value;
    assert d[i].0 == k;
    GetAt(Plain, d, i);
  }

  /** In a dict with distinct keys, each entry's key reads back its value. */
  lemma GetAt<V>(kind: KeyKind, d: Dict<V>, i: nat)
    requires Unique(kind, d) && i < |d|
    ensures In(kind, d, d[i].0) && Get(kind, d, d[i].0) == Ok(d[i].1)
  {
    FromPairsDistinct(kind, d);
    assert NormKeys(kind, d)[i] == Norm(kind, d[i].0);
    assert LastAssignment(kind, d, d[i].0, i);
    FromPairsLast(kind, d, d[i].0, i);
  }

  /** The pairs a comprehension with a condition assigns: those `f` gives,
      in order, skipping the items it gives nothing for. */
  function PairsOf<T, V>(xs: seq<T>, f: T -> Option<(string, V)>): seq<(string, V)>
    decreases |xs|
  {
    if xs == [] then []
    else
      var n := |xs| - 1;
      PairsOf(xs[..n], f) + Assigned(f(xs[n]))
  }

  /** One more item is one more assignment, or none: the step of a loop
      that stores what `f` gives for each item. */
  lemma PairsOfNext<T, V>(kind: KeyKind, xs: seq<T>, f: T -> Option<(string, V)>, i: nat)
    requires i < |xs|
    ensures FromPairs(kind, PairsOf(xs[..i + 1], f)) ==
      if f(xs[i]).Some? then Put(kind, FromPairs(kind, PairsOf(xs[..i], f)), f(xs[i]).value.0, f(xs[i]).value.1)
      else FromPairs(kind, PairsOf(xs[..i], f))
  {
    assert xs[..i + 1][..i] == xs[..i];
    var before := PairsOf(xs[..i], f);
    assert PairsOf(xs[..i + 1], f) == before + Assigned(f(xs[i]));
    if f(xs[i]).Some? {
      FromPairsSnoc(kind, before, f(xs[i]).value);
    } else {
      assert before + [] == before;
    }
  }

  /** A key holds the value of the last item that assigns it. */
  lemma {:induction false} LastPairWins<T, V>(kind: KeyKind, xs: seq<T>, f: T -> Option<(string, V)>, i: nat, k: string, v: V)
    requires i < |xs| && f(xs[i]) == Some((k, v))
    requires forall j :: i < j < |xs| ==> f(xs[j]).None? || Norm(kind, f(xs[j]).value.0) != Norm(kind, k)
    ensures Get(kind, FromPairs(kind, PairsOf(xs, f)), k) == Ok(v)
    decreases |xs|
  {
    var n := |xs| - 1;
    var init := xs[..n];
    if i < n {
      assert init[i] == xs[i];
      assert forall j :: i < j < n ==> init[j] == xs[j];
      LastPairWins(kind, init, f, i, k, v);
    }
    AssignedRead(kind, PairsOf(init, f), f(xs[n]), k, v);
  }

  /** When the last two items assign two different keys, each key reads the
      value its item assigns. */
  lemma LastTwoPairsWin<T, V>(kind: KeyKind, xs: seq<T>, f: T -> Option<(string, V)>, p: (string, V), q: (string, V))
    requires |xs| >= 2 && f(xs[|xs| - 2]) == Some(p) && f(xs[|xs| - 1]) == Some(q)
    requires Norm(kind, p.0) != Norm(kind, q.0)
    ensures Get(kind, FromPairs(kind, PairsOf(xs, f)), p.0) == Ok(p.1)
    ensures Get(kind, FromPairs(kind, PairsOf(xs, f)), q.0) == Ok(q.1)
  {
    var n := |xs| - 2;
    forall j | n < j < |xs| ensures f(xs[j]).None? || Norm(kind, f(xs[j]).value.0) != Norm(kind, p.0) {
      assert j == n + 1;
    }
    LastPairWins(kind, xs, f, n, p.0, p.1);
    LastPairWins(kind, xs, f, n + 1, q.0, q.1);
  }

  /** The pair an item assigns, if any, as a list. */
  function Assigned<V>(o: Option<(string, V)>): (r: seq<(string, V)>)
    ensures |r| <= 1 && (r == [] <==> o.None?)
  {
    match o
    case Some(p) => [p]
    case None => []
  }

  /** After one more item, a key reads the value that item assigns it, or
      else the value it read before. */
  lemma AssignedRead<V>(kind: KeyKind, before: seq<(string, V)>, o: Option<(string, V)>, k: string, v: V)
    requires o == Some((k, v)) ||
      ((o.None? || Norm(kind, o.value.0) != Norm(kind, k)) && Get(kind, FromPairs(kind, before), k) == Ok(v))
    ensures Get(kind, FromPairs(kind, before + Assigned(o)), k) == Ok(v)
  {
    match o
    case None =>
      assert before + [] == before;
    case Some(p) =>
      FromPairsSnoc(kind, before, p);
      GetPut(kind, FromPairs(kind, before), p.0, p.1, k);
  }

  /** A key is present exactly when some item assigns it. */
  lemma PairsOfIn<T, V>(kind: KeyKind, xs: seq<T>, f: T -> Option<(string, V)>, k: string)
    ensures In(kind, FromPairs(kind, PairsOf(xs, f)), k) <==>
      exists i :: 0 <= i < |xs| && f(xs[i]).Some? && Norm(kind, f(xs[i]).value.0) == Norm(kind, k)
  {
    FromPairsIn(kind, PairsOf(xs, f), k);
    PairsOfKeys(kind, xs, f, k);
  }

  lemma {:induction false} PairsOfKeys<T, V>(kind: KeyKind, xs: seq<T>, f: T -> Option<(string, V)>, k: string)
    ensures Norm(kind, k) in NormKeys(kind, PairsOf(xs, f)) <==>
      exists i :: 0 <= i < |xs| && f(xs[i]).Some? && Norm(kind, f(xs[i]).value.0) == Norm(kind, k)
    decreases |xs|
  {
    if xs != [] {
      PairsOfKeys(kind, xs[..|xs| - 1], f, k);
      PairsOfKeysSnoc(kind, xs, f, k);
      AssignsSnoc(kind, xs, f, k);
    }
  }

  /** The keys assigned by one more item: those before, and the one it assigns. */
  lemma PairsOfKeysSnoc<T, V>(kind: KeyKind, xs: seq<T>, f: T -> Option<(string, V)>, k: string)
    requires xs != []
    ensures var n := |xs| - 1;
      Norm(kind, k) in NormKeys(kind, PairsOf(xs, f)) <==>
        Norm(kind, k) in NormKeys(kind, PairsOf(xs[..n], f)) ||
        (f(xs[n]).Some? && Norm(kind, f(xs[n]).value.0) == Norm(kind, k))
  {
    var n := |xs| - 1;
    var extra := Assigned(f(xs[n]));
    NormKeysAppend(kind, PairsOf(xs[..n], f), extra);
    match f(xs[n])
    case None =>
    case Some(p) =>
      assert NormKeys(kind, extra) == [Norm(kind, p.0)];
  }

  /** Some item assigns `k` exactly when one before the last does, or the last does. */
  lemma AssignsSnoc<T, V>(kind: KeyKind, xs: seq<T>, f: T -> Option<(string, V)>, k: string)
    requires xs != []
    ensures var n := |xs| - 1;
      (exists i :: 0 <= i < |xs| && f(xs[i]).Some? && Norm(kind, f(xs[i]).value.0) == Norm(kind, k)) <==>
        (exists i :: 0 <= i < n && f(xs[..n][i]).Some? && Norm(kind, f(xs[..n][i]).value.0) == Norm(kind, k)) ||
        (f(xs[n]).Some? && Norm(kind, f(xs[n]).value.0) == Norm(kind, k))
  {
    var n := |xs| - 1;
    var init := xs[..n];
    if exists i :: 0 <= i < |xs| && f(xs[i]).Some? && Norm(kind, f(xs[i]).value.0) == Norm(kind, k) {
      var i :| 0 <= i < |xs| && f(xs[i]).Some? && Norm(kind, f(xs[i]).value.0) == Norm(kind, k);
      if i < n {
        assert init[i] == xs[i];
      }
    }
    if exists i :: 0 <= i < n && f(init[i]).Some? && Norm(kind, f(init[i]).value.0) == Norm(kind, k) {
      var i :| 0 <= i < n && f(init[i]).Some? && Norm(kind, f(init[i]).value.0) == Norm(kind, k);
      assert xs[i] == init[i];
    }
  }

  lemma NormKeysAppend<V>(kind: KeyKind, a: Dict<V>, b: Dict<V>)
    ensures NormKeys(kind, a + b) == NormKeys(kind, a) + NormKeys(kind, b)
  {
  }

  /** Python's `d.pop(k)` as the dictionary left behind; KeyError for an absent key. */
  function Pop<V>(kind: KeyKind, d: Dict<V>, k: string): (r: Result<Dict<V>>)
    ensures r.Err? <==> !In(kind, d, k)
    ensures r.Err? ==> r.error == KeyError(k)
    ensures r.Ok? ==> |r.value| == |d| - 1
    ensures r.Ok? && Unique(kind, d) ==> Unique(kind, r.value) && !In(kind, r.value, k)
  {
    match Find(NormKeys(kind, d), Norm(kind, k))
    case None => Err(KeyError(k))
    case Some(i) =>
      var r := d[..i] + d[i + 1..];
      NormKeysRemove(kind, d, i);
      DistinctRemove(NormKeys(kind, d), i);
      Ok(r)
  }

  /** The keys left after removing entry `i` are the keys without key `i`. */
  lemma NormKeysRemove<V>(kind: KeyKind, d: Dict<V>, i: nat)
    requires i < |d|
    ensures NormKeys(kind, d[..i] + d[i + 1..]) == NormKeys(kind, d)[..i] + NormKeys(kind, d)[i + 1..]
  {
    RemovedKeys(NormKeys(kind, d), i);
  }

  /** Removing the key at `i` from distinct keys leaves distinct keys without it. */
  lemma DistinctRemove(keys: seq<string>, i: nat)
    requires i < |keys|
    ensures Distinct(keys) ==> Distinct(keys[..i] + keys[i + 1..]) && keys[i] !in keys[..i] + keys[i + 1..]
  {
    var rkeys := keys[..i] + keys[i + 1..];
    RemovedKeys(keys, i);
    if Distinct(keys) {
      forall a, b | 0 <= a < b < |rkeys| ensures rkeys[a] != rkeys[b] {
        var a' := if a < i then a else a + 1;
        var b' := if b < i then b else b + 1;
        assert rkeys[a] == keys[a'] && rkeys[b] == keys[b'];
      }
      forall j | 0 <= j < |rkeys| ensures rkeys[j] != keys[i] {
        var j' := if j < i then j else j + 1;
        assert rkeys[j] == keys[j'];
      }
    }
  }

  /** Removing an entry cannot make an absent key present. */
  lemma FindRemoveNone(keys: seq<string>, i: nat, q: string)
    requires i < |keys| && q !in keys
    ensures Find(keys[..i] + keys[i + 1..], q).None?
  {
    var rkeys := keys[..i] + keys[i + 1..];
    RemovedKeys(keys, i);
    forall j | 0 <= j < |rkeys| ensures rkeys[j] != q {
      if j < i {
        assert rkeys[j] == keys[j];
      } else {
        assert rkeys[j] == keys[j + 1];
      }
    }
  }

  /** The keys left after removing the one at `i`, position by position. */
  lemma RemovedKeys(keys: seq<string>, i: nat)
    requires i < |keys|
    ensures var rkeys := keys[..i] + keys[i + 1..];
      |rkeys| == |keys| - 1 &&
      (forall j :: 0 <= j < i ==> rkeys[j] == keys[j]) &&
      (forall j :: i <= j < |rkeys| ==> rkeys[j] == keys[j + 1])
  {
  }

  /** Removing the entry at `i` shifts every later match down by one: the
      first match at `p` moves to its new place. */
  lemma FindRemoveAt(keys: seq<string>, i: nat, q: string, p: nat)
    requires i < |keys| && keys[i] != q && Find(keys, q) == Some(p)
    ensures Find(keys[..i] + keys[i + 1..], q) == Some(if p < i then p else p - 1)
  {
    var rkeys := keys[..i] + keys[i + 1..];
    RemovedKeys(keys, i);
    var r := if p < i then p else p - 1;
    assert rkeys[r] == q;
    forall j | 0 <= j < r ensures rkeys[j] != q {
      if j < i {
        assert rkeys[j] == keys[j];
      } else {
        assert rkeys[j] == keys[j + 1];
      }
    }
    FindIs(rkeys, q, r);
  }

  /** Removing another entry does not change what a key reads. */
  lemma {:induction false} GetRemove<V>(kind: KeyKind, d: Dict<V>, i: nat, q: string)
    requires i < |d| && Norm(kind, d[i].0) != Norm(kind, q)
    ensures Get(kind, d[..i] + d[i + 1..], q) == Get(kind, d, q)
  {
    var keys := NormKeys(kind, d);
    var r := d[..i] + d[i + 1..];
    var nq := Norm(kind, q);
    NormKeysAppend(kind, d[..i], d[i + 1..]);
    assert NormKeys(kind, d[..i]) == keys[..i] && NormKeys(kind, d[i + 1..]) == keys[i + 1..];
    match Find(keys, nq)
    case None =>
      FindRemoveNone(keys, i, nq);
    case Some(p) =>
      FindRemoveAt(keys, i, nq, p);
      RemovedAt(d, i, p);
  }

  /** Removing entry `i` moves each later entry one place down. */
  lemma RemovedAt<V>(d: Dict<V>, i: nat, p: nat)
    requires i < |d| && p < |d| && p != i
    ensures (d[..i] + d[i + 1..])[if p < i then p else p - 1] == d[p]
  {
  }

  /** After a pop, the other keys read as before. */
  lemma GetPop<V>(kind: KeyKind, d: Dict<V>, k: string, q: string)
    requires In(kind, d, k) && Norm(kind, q) != Norm(kind, k)
    ensures Get(kind, Pop(kind, d, k).value, q) == Get(kind, d, q)
  {
    var i := Find(NormKeys(kind, d), Norm(kind, k)).value;
    assert Pop(kind, d, k) == Ok(d[..i] + d[i + 1..]);
    assert Norm(kind, d[i].0) == NormKeys(kind, d)[i];
    GetRemove(kind, d, i, q);
  }
}
