/**
 * The `TimeObservation` record of the collector (src/main.rs) and the two
 * conversions the source obtains from one serde derive:
 *  - extraction: the D-Bus property bag is converted to a JSON object
 *    (`serde_json::to_value`) and that object is deserialised into the record
 *    (`serde_json::from_value`);
 *  - payload encoding: the record is serialised to a JSON object
 *    (`serde_json::to_vec`) under the same renamed keys.
 *
 * A bag value is modelled by the JSON value it converts to: a D-Bus integer
 * of any width becomes a JSON number with the same value, and strings,
 * booleans and everything else become JSON values that are not integers.
 * The conversion is therefore the identity on this model. This is an
 * assumption about zvariant's serialiser that the model does not check: if
 * `Serialize for Value` writes a signature/value structure rather than the
 * bare scalar, every present `TIME_*` key reaches `from_value` as an object
 * and extraction as written fails for every bag.
 */
module Observations {
  import opened Wrappers

  const MinInt32: int := -0x8000_0000
  const MaxInt32: int := 0x7fff_ffff

  /** Rust's `i32`. */
  type Int32 = x: int | MinInt32 <= x <= MaxInt32

  /** A D-Bus variant value, as the JSON value it converts to. */
  datatype Value =
    | Int(i: int)        // any D-Bus integer type, as a JSON number
    | Str(s: string)
    | Bool(b: bool)
    | Other              // doubles, arrays, structures, ...

  /** The property bag returned by `get_user_information`. */
  type Bag = map<string, Value>

  /** A published payload: a JSON object whose values are all integers. */
  type Payload = map<string, int>

  /** The record published for one user; field order is declaration order. */
  datatype Observation = Observation(
    leftDay: Int32,
    spentBalance: Int32,
    spentMonth: Int32,
    spentWeek: Int32,
    spentDay: Int32)

  /**
   * Why deserialisation failed. A present required key whose value is not an
   * `i32` is reported while the object's entries are visited, so it wins over
   * a missing key; which of several such keys is named depends on the map's
   * iteration order, so the model keeps all of them. Missing keys are checked
   * afterwards in declaration order, so the first absent one is named.
   */
  datatype ExtractError =
    | InvalidType(keys: set<string>)
    | MissingField(key: string)

  // The `#[serde(rename = ...)]` keys, in declaration order.
  const KeyLeftDay := "TIME_LEFT_DAY"
  const KeySpentBalance := "TIME_SPENT_BALANCE"
  const KeySpentMonth := "TIME_SPENT_MONTH"
  const KeySpentWeek := "TIME_SPENT_WEEK"
  const KeySpentDay := "TIME_SPENT_DAY"

  const FieldKeys: seq<string> := [KeyLeftDay, KeySpentBalance, KeySpentMonth, KeySpentWeek, KeySpentDay]

  /** A value that deserialises into an `i32`. */
  predicate IsInt32(v: Value) {
    v.Int? && MinInt32 <= v.i <= MaxInt32
  }

  /** The required keys present in `obj` whose value is not an `i32`. */
  function InvalidKeys(obj: Bag): set<string> {
    set k | k in FieldKeys && k in obj && !IsInt32(obj[k])
  }

  /** Index in `keys` of the first key absent from `obj`, or `|keys|` if none is. */
  function FirstAbsent(keys: seq<string>, obj: Bag): (r: nat)
    ensures r <= |keys|
    ensures forall j :: 0 <= j < r ==> keys[j] in obj
    ensures r < |keys| ==> keys[r] !in obj
  {
    if keys == [] then 0
    else if keys[0] !in obj then 0
    else 1 + FirstAbsent(keys[1..], obj)
  }

  /**
   * `TimeObservation::try_from(&properties)`: `serde_json::to_value` of the
   * bag, which is the identity on this model, then
   * `serde_json::from_value::<TimeObservation>`. Unknown keys are ignored.
   */
  function Extract(obj: Bag): Result<Observation, ExtractError> {
    var bad := InvalidKeys(obj);
    var absent := FirstAbsent(FieldKeys, obj);
    if bad != {} then Err(InvalidType(bad))
    else if absent < |FieldKeys| then Err(MissingField(FieldKeys[absent]))
    else
      assert forall k :: k in FieldKeys ==> k in obj && k !in bad;
      Ok(Observation(
        obj[KeyLeftDay].i,
        obj[KeySpentBalance].i,
        obj[KeySpentMonth].i,
        obj[KeySpentWeek].i,
        obj[KeySpentDay].i))
  }

  /** The payload object `serde_json::to_vec(&observation)` writes out. */
  function Encode(obs: Observation): (payload: Payload)
    ensures payload.Keys == set k | k in FieldKeys
    ensures forall k :: k in payload ==> MinInt32 <= payload[k] <= MaxInt32
  {
    map[
      KeyLeftDay := obs.leftDay as int,
      KeySpentBalance := obs.spentBalance as int,
      KeySpentMonth := obs.spentMonth as int,
      KeySpentWeek := obs.spentWeek as int,
      KeySpentDay := obs.spentDay as int]
  }

  /** A payload read back as a JSON object: every value is a number. */
  function PayloadObject(payload: Payload): Bag {
    map k | k in payload :: Int(payload[k])
  }

  /** The required-key part of a bag: the only part extraction looks at. */
  predicate SameRequiredEntries(bag: Bag, bag': Bag) {
    forall k :: k in FieldKeys ==> (k in bag <==> k in bag') && (k in bag ==> bag[k] == bag'[k])
  }

  // ---------------------------------------------------------------------
  // Extraction

  /** Extraction succeeds exactly when all five keys hold integers in `i32` range. */
  lemma ExtractOkIff(bag: Bag)
    ensures Extract(bag).Ok? <==> forall k :: k in FieldKeys ==> k in bag && IsInt32(bag[k])
  {
    if forall k :: k in FieldKeys ==> k in bag && IsInt32(bag[k]) {
      assert InvalidKeys(bag) == {};
    } else {
      var k :| k in FieldKeys && !(k in bag && IsInt32(bag[k]));
      if k in bag {
        assert k in InvalidKeys(bag);
      } else {
        assert FirstAbsent(FieldKeys, bag) < |FieldKeys|;
      }
    }
  }

  /** On success every field is the bag's integer under its renamed key, unchanged. */
  lemma ExtractFieldsExact(bag: Bag, obs: Observation)
    requires Extract(bag) == Ok(obs)
    ensures KeyLeftDay in bag && bag[KeyLeftDay] == Int(obs.leftDay)
    ensures KeySpentBalance in bag && bag[KeySpentBalance] == Int(obs.spentBalance)
    ensures KeySpentMonth in bag && bag[KeySpentMonth] == Int(obs.spentMonth)
    ensures KeySpentWeek in bag && bag[KeySpentWeek] == Int(obs.spentWeek)
    ensures KeySpentDay in bag && bag[KeySpentDay] == Int(obs.spentDay)
  {
    ExtractOkIff(bag);
  }

  /**
   * A missing required key makes extraction fail. When no present required
   * key is ill-typed, the error names the first absent key in declaration order.
   */
  lemma ExtractMissingKey(bag: Bag, k: string)
    requires k in FieldKeys && k !in bag
    ensures Extract(bag).Err?
    ensures Extract(bag).error.MissingField? ==>
      exists i :: 0 <= i < |FieldKeys| && FieldKeys[i] == Extract(bag).error.key &&
        FieldKeys[i] !in bag && forall j :: 0 <= j < i ==> FieldKeys[j] in bag
    ensures (forall k' :: k' in FieldKeys && k' in bag ==> IsInt32(bag[k'])) ==>
      Extract(bag).error.MissingField?
  {
    ExtractOkIff(bag);
    var absent := FirstAbsent(FieldKeys, bag);
    if Extract(bag).error.MissingField? {
      assert FieldKeys[absent] == Extract(bag).error.key;
    }
    if forall k' :: k' in FieldKeys && k' in bag ==> IsInt32(bag[k']) {
      assert InvalidKeys(bag) == {};
    }
  }

  /**
   * A required key holding a string, a boolean, any other non-integer, or an
   * integer outside `i32` makes extraction fail with a type error that covers
   * that key and only keys that are present and ill-typed; present valid keys
   * are not reported.
   */
  lemma ExtractRejectsNonInt32(bag: Bag, k: string)
    requires k in FieldKeys && k in bag && !IsInt32(bag[k])
    ensures Extract(bag).Err? && Extract(bag).error.InvalidType?
    ensures k in Extract(bag).error.keys
    ensures forall k' :: k' in Extract(bag).error.keys <==>
      k' in FieldKeys && k' in bag && !IsInt32(bag[k'])
  {
    assert k in InvalidKeys(bag);
  }

  /** Keys other than the five never change the outcome of extraction. */
  lemma ExtractIgnoresUnknownKeys(bag: Bag, bag': Bag)
    requires SameRequiredEntries(bag, bag')
    ensures Extract(bag) == Extract(bag')
  {
    forall k ensures k in InvalidKeys(bag) <==> k in InvalidKeys(bag') {
    }
    assert InvalidKeys(bag) == InvalidKeys(bag');
    FirstAbsentAgrees(FieldKeys, bag, bag');
    if Extract(bag).Ok? {
      assert Extract(bag').Ok?;
      ExtractFieldsExact(bag, Extract(bag).value);
      ExtractFieldsExact(bag', Extract(bag').value);
    }
  }

  lemma {:induction false} FirstAbsentAgrees(keys: seq<string>, obj: Bag, obj': Bag)
    requires forall k :: k in keys ==> (k in obj <==> k in obj')
    ensures FirstAbsent(keys, obj) == FirstAbsent(keys, obj')
  {
    if keys != [] && keys[0] in obj {
      FirstAbsentAgrees(keys[1..], obj, obj');
    }
  }

  // ---------------------------------------------------------------------
  // Payload

  /** Deserialising the payload of an observation gives the observation back. */
  lemma ExtractEncode(obs: Observation)
    ensures Extract(PayloadObject(Encode(obs))) == Ok(obs)
  {
    var obj := PayloadObject(Encode(obs));
    assert InvalidKeys(obj) == {};
  }

  /**
   * Encoding a deserialised object gives back exactly its five required entries:
   * no key is renamed, dropped or added, and no value changes.
   */
  lemma EncodeExtract(obj: Bag, obs: Observation)
    requires Extract(obj) == Ok(obs)
    ensures PayloadObject(Encode(obs)) == map k | k in FieldKeys && k in obj :: obj[k]
  {
    var absent := FirstAbsent(FieldKeys, obj);
    assert absent == |FieldKeys|;
    assert forall k :: k in FieldKeys ==> k in obj && k !in InvalidKeys(obj);
  }

  /**
   * End to end: the payload published for a bag repeats the bag's five
   * integers under the same keys, and nothing else of the bag.
   */
  lemma PayloadRepublishesBag(bag: Bag, obs: Observation)
    requires Extract(bag) == Ok(obs)
    ensures Encode(obs).Keys == set k | k in FieldKeys
    ensures forall k :: k in FieldKeys ==> k in bag && bag[k] == Int(Encode(obs)[k])
  {
    ExtractOkIff(bag);
    EncodeExtract(bag, obs);
    forall k | k in FieldKeys ensures k in bag && bag[k] == Int(Encode(obs)[k]) {
      assert PayloadObject(Encode(obs))[k] == bag[k];
    }
  }

  /** The sample payload: exactly the five renamed keys with the given numbers. */
  lemma SamplePayload()
    ensures Encode(Observation(3600, 0, 18000, 7200, 3600)) == map[
      "TIME_LEFT_DAY" := 3600, "TIME_SPENT_BALANCE" := 0,
      "TIME_SPENT_MONTH" := 18000, "TIME_SPENT_WEEK" := 7200,
      "TIME_SPENT_DAY" := 3600]
    ensures "left_day" !in Encode(Observation(3600, 0, 18000, 7200, 3600))
  {
  }
}
