/** The schema-versioned key/value document a node replicates. */
module Documents {
  import opened Common

  const MAX_STATE_KEY_BYTES: nat := 256
  const MAX_STATE_VALUE_BYTES: nat := 64 * 1024
  const MAX_STATE_FIELDS: nat := 100000

  type Fields = map<Text, Text>

  datatype Document = Document(schema: nat, fields: Fields)

  predicate KeyInRange(key: Text) { 0 < |key| <= MAX_STATE_KEY_BYTES }

  predicate ValueInRange(value: Text) { |value| <= MAX_STATE_VALUE_BYTES }

  /** Every document built by `Put` from an empty one is within its bounds. */
  predicate Bounded(fields: Fields) {
    && |fields| <= MAX_STATE_FIELDS
    && forall k :: k in fields ==> KeyInRange(k) && ValueInRange(fields[k])
  }

  function Put(fields: Fields, key: Text, value: Text): (r: Result<Fields>)
    ensures r.Ok? ==> r.value == fields[key := value]
    ensures r.Ok? <==>
            0 < |key| <= 256 && |value| <= 65536 && (key in fields || |fields| < 100000)
    ensures r.Err? ==>
              r.code == if 0 < |key| <= 256 && |value| <= 65536 then ResourceExhausted else BoundsExceeded
    ensures Bounded(fields) && r.Ok? ==> Bounded(r.value)
  {
    if !KeyInRange(key) || !ValueInRange(value) then Err(BoundsExceeded)
    else if key !in fields && |fields| >= MAX_STATE_FIELDS then Err(ResourceExhausted)
    else
      assert key in fields ==> fields[key := value].Keys == fields.Keys;
      assert key !in fields ==> fields[key := value].Keys == fields.Keys + {key};
      Ok(fields[key := value])
  }

  function Remove(fields: Fields, key: Text): (r: Result<Fields>)
    ensures r.Ok? <==> key in fields
    ensures Bounded(fields) && r.Ok? ==> Bounded(r.value)
  {
    if key !in fields then Err(NotFound)
    else
      assert (fields - {key}).Keys <= fields.Keys;
      SubsetSize((fields - {key}).Keys, fields.Keys);
      Ok(fields - {key})
  }

  lemma SubsetSize<T>(a: set<T>, b: set<T>)
    requires a <= b
    ensures |a| <= |b|
  {
    assert b == a + (b - a);
  }
}
