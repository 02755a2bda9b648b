/** Stores of feature buffers, keyed by feature-set id
    (crates/dag-ml-data-core/src/buffer.rs). */
module FeatureStore {
  import opened FeatureBuffer
  import opened Ordering
  import opened Sequences
  import opened Words
  import opened Wrappers

  type Store = map<Text, Buffer>

  predicate ByteLess(a: Byte, b: Byte) { a < b }

  /** Strings in dictionary order of their bytes, the order of the store's `BTreeMap`. */
  predicate TextLess(a: Text, b: Text) { SeqLess(ByteLess, a, b) }

  lemma TextOrder()
    ensures StrictTotal(TextLess)
  {
    DictionaryOrder(ByteLess, TextLess);
  }

  ghost predicate StoreValid(host: Host, s: Store) {
    forall id :: id in s ==> s[id].featureSetId == id && BufferValid(host, s[id])
  }

  /** Every present cell is finite, which the constructors see to. */
  ghost predicate StoreFinite(s: Store) {
    forall id :: id in s ==> PresentFinite(s[id].columns)
  }

  /** The store a list of matrices builds: all accepted, no feature set twice. */
  ghost function StoreOf(host: Host, ms: seq<ColumnMatrix>): Result<Store> {
    if ms == [] then Ok(map[])
    else
      var last := ms[|ms| - 1];
      match StoreOf(host, ms[..|ms| - 1])
      case ValidationError => ValidationError
      case Ok(s) =>
        match FromColumns(host, last)
        case ValidationError => ValidationError
        case Ok(b) => if last.featureSetId in s then ValidationError else Ok(s[last.featureSetId := b])
  }

  lemma {:induction false} StoreOfValid(host: Host, ms: seq<ColumnMatrix>)
    requires StoreOf(host, ms).Ok?
    ensures StoreValid(host, StoreOf(host, ms).value) && StoreFinite(StoreOf(host, ms).value)
    ensures |StoreOf(host, ms).value| == |ms|
  {
    if ms != [] {
      StoreOfValid(host, ms[..|ms| - 1]);
      ConstructedValid(host, ms[|ms| - 1]);
    }
  }

  lemma {:induction false} StoreOfPrefix(host: Host, ms: seq<ColumnMatrix>, k: nat)
    requires k <= |ms| && StoreOf(host, ms[..k]).ValidationError?
    ensures StoreOf(host, ms).ValidationError?
    decreases |ms|
  {
    if k < |ms| {
      assert ms[..|ms| - 1][..k] == ms[..k];
      StoreOfPrefix(host, ms[..|ms| - 1], k);
    } else {
      assert ms[..k] == ms;
    }
  }

  /** `NumericFeatureBufferStore::new`. */
  method NewStore(host: Host, buffers: Store) returns (r: Result<Store>)
    ensures r == if StoreValid(host, buffers) then Ok(buffers) else ValidationError
  {
    var remaining := buffers.Keys;
    while remaining != {}
      invariant remaining <= buffers.Keys
      invariant forall id :: id in buffers && id !in remaining ==>
        buffers[id].featureSetId == id && BufferValid(host, buffers[id])
      decreases remaining
    {
      var id :| id in remaining;
      remaining := remaining - {id};
      var valid := Validate(host, buffers[id]);
      if !valid || id != buffers[id].featureSetId {
        return ValidationError;
      }
    }
    return Ok(buffers);
  }

  method FromF64ColumnMatrices(host: Host, ms: seq<ColumnMatrix>) returns (r: Result<Store>)
    ensures r == StoreOf(host, ms)
  {
    var buffers: Store := map[];
    for i := 0 to |ms|
      invariant StoreOf(host, ms[..i]) == Ok(buffers)
    {
      assert ms[..i + 1][..i] == ms[..i];
      var buffer := FromF64ColumnMatrix(host, ms[i]);
      if buffer.ValidationError? || ms[i].featureSetId in buffers {
        StoreOfPrefix(host, ms, i + 1);
        return ValidationError;
      }
      buffers := buffers[ms[i].featureSetId := buffer.value];
    }
    assert ms[..|ms|] == ms;
    StoreOfValid(host, ms);
    r := NewStore(host, buffers);
  }

  // ----- the matrices of a store, in the order of its keys -----

  ghost function MatricesOf(s: Store, keys: seq<Text>): seq<ColumnMatrix>
    requires forall i :: 0 <= i < |keys| ==> keys[i] in s
  {
    seq(|keys|, i requires 0 <= i < |keys| => ToColumns(s[keys[i]]))
  }

  ghost function Restrict(s: Store, keys: seq<Text>): Store {
    map id | id in s && id in keys :: s[id]
  }

  lemma RestrictPush(s: Store, front: seq<Text>, last: Text)
    requires last in s
    ensures Restrict(s, front + [last]) == Restrict(s, front)[last := s[last]]
  {}

  /** Building from a store's own matrices restores the part of the store they come from. */
  lemma {:induction false} StoreOfMatrices(host: Host, s: Store, keys: seq<Text>)
    requires StoreValid(host, s) && StoreFinite(s)
    requires Distinct(keys) && forall i :: 0 <= i < |keys| ==> keys[i] in s
    ensures StoreOf(host, MatricesOf(s, keys)) == Ok(Restrict(s, keys))
  {
    hide StoreOf, FromColumns, BufferValid, PresentFinite;
    if keys == [] {
      NothingStored(host);
      assert Restrict(s, keys) == map[] && MatricesOf(s, keys) == [];
    } else {
      var front, last := keys[..|keys| - 1], keys[|keys| - 1];
      StoreOfMatrices(host, s, front);
      ToColumnsAndBack(host, s[last]);
      var ms := MatricesOf(s, keys);
      StoreOfLast(host, ms);
      assert ms[..|ms| - 1] == MatricesOf(s, front);
      assert keys == front + [last];
      assert last !in front;
      RestrictPush(s, front, last);
    }
  }

  /** The matrices of a store in ascending order of feature-set id. */
  ghost function StoredMatrices(s: Store): seq<ColumnMatrix> {
    TextOrder();
    MatricesOf(s, KeyOrder(TextLess, s.Keys))
  }

  lemma StoreRestored(host: Host, s: Store)
    requires StoreValid(host, s) && StoreFinite(s)
    ensures StoreOf(host, StoredMatrices(s)) == Ok(s)
    ensures |StoredMatrices(s)| == |s|
  {
    hide StoreOf, StoreValid, StoreFinite, KeyOrder, SeqLess, ToColumns;
    TextOrder();
    var keys := KeyOrder(TextLess, s.Keys);
    StoreOfMatrices(host, s, keys);
    assert Restrict(s, keys) == s;
    StoreOfValid(host, MatricesOf(s, keys));
  }

  // ----- stores, in the fields of what they are built from -----

  /** The byte order of strings: the first different byte decides, a proper prefix comes first. */
  lemma TextLessMeans(a: Text, b: Text)
    ensures TextLess(a, b) <==>
      || (|a| < |b| && a == b[..|a|])
      || exists i :: 0 <= i < |a| && i < |b| && a[..i] == b[..i] && a[i] < b[i]
  {
    FirstDifference(ByteLess, a, b);
  }

  /** A store is built exactly from accepted matrices of different feature sets, and holds the
      buffer of each. */
  lemma {:induction false} StoreOfInFields(host: Host, ms: seq<ColumnMatrix>)
    ensures StoreOf(host, ms).Ok? <==>
      && (forall i :: 0 <= i < |ms| ==> FromColumns(host, ms[i]).Ok?)
      && (forall i, j :: 0 <= i < j < |ms| ==> ms[i].featureSetId != ms[j].featureSetId)
    ensures StoreOf(host, ms).Ok? ==>
      var s := StoreOf(host, ms).value;
      && (forall i :: 0 <= i < |ms| ==>
            ms[i].featureSetId in s && FromColumns(host, ms[i]) == Ok(s[ms[i].featureSetId]))
      && (forall id :: id in s ==> exists i :: 0 <= i < |ms| && ms[i].featureSetId == id)
  {
    hide FromColumns, StoreOf;
    if ms == [] {
      NothingStored(host);
    } else {
      var n := |ms| - 1;
      var front := ms[..n];
      StoreOfInFields(host, front);
      StoreOfLast(host, ms);
      assert ms == front + [ms[n]];
      if StoreOf(host, front).Ok? {
        var s := StoreOf(host, front).value;
        assert ms[n].featureSetId in s <==> exists i :: 0 <= i < n && ms[i].featureSetId == ms[n].featureSetId;
      }
    }
  }

  lemma NothingStored(host: Host)
    ensures StoreOf(host, []) == Ok(map[])
  {}

  lemma StoreOfLast(host: Host, ms: seq<ColumnMatrix>)
    requires ms != []
    ensures
      var last, front := ms[|ms| - 1], StoreOf(host, ms[..|ms| - 1]);
      StoreOf(host, ms) ==
        if front.Ok? && FromColumns(host, last).Ok? && last.featureSetId !in front.value
        then Ok(front.value[last.featureSetId := FromColumns(host, last).value]) else ValidationError
  {
    hide FromColumns;
  }

  /** A store is written in ascending order of its feature-set ids. */
  lemma StoredInOrder(host: Host, s: Store, i: nat, j: nat)
    requires StoreValid(host, s) && i < j < |StoredMatrices(s)|
    ensures
      var a, b := StoredMatrices(s)[i], StoredMatrices(s)[j];
      && TextLess(a.featureSetId, b.featureSetId)
      && a.featureSetId in s && a == ToColumns(s[a.featureSetId])
      && b.featureSetId in s && b == ToColumns(s[b.featureSetId])
  {
    hide BufferValid, TextLess;
    TextOrder();
    var keys := KeyOrder(TextLess, s.Keys);
    assert keys[i] in keys && keys[j] in keys;
  }
}
