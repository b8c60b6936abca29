/**
 * The persistence wrapper of the Dimer app (`LifeTimerManager`): one record
 * kept under one key of an app-group defaults suite, written by `Save`,
 * read by `Load` and removed by `Clear`. Every failure is silent: a record
 * that cannot be encoded is not written, and a missing suite, a missing key
 * or bytes that do not decode all read as "no record".
 *
 * The JSON coder is a pair of abstract functions and the suite is an
 * explicit state value threaded through the operations.
 */
module TimerStore {
  import opened Wrappers
  import opened LifeTimer

  newtype byte = x: int | 0 <= x < 256

  type Bytes = seq<byte>

  /** The key the record is stored under (`userDefaultsKey`). */
  const UserDefaultsKey: string := "lifeTimerData"

  /** The record's coder: encoding may fail and decoding may reject its input. */
  datatype Codec = Codec(encode: LifeTimerData -> Option<Bytes>, decode: Bytes -> Option<LifeTimerData>)

  /** Decoding what `codec` encoded for `data` gives `data` back. */
  predicate RoundTripsOn(codec: Codec, data: LifeTimerData) {
    codec.encode(data).Some? ==> codec.decode(codec.encode(data).value) == Some(data)
  }

  /**
   * The app-group suite as seen through `UserDefaults(suiteName:)`:
   * `Unavailable` when that gives nil, otherwise the suite's data entries.
   */
  datatype Defaults = Unavailable | Available(entries: map<string, Bytes>)

  /** What the suite holds under `key` (`data(forKey:)` through an optional suite). */
  function Lookup(d: Defaults, key: string): (v: Option<Bytes>)
    ensures v.Some? <==> d.Available? && key in d.entries
    ensures v.Some? ==> v.value == d.entries[key]
  {
    match d
    case Unavailable => None
    case Available(entries) => if key in entries then Some(entries[key]) else None
  }

  /** The raw bytes stored under the record's key. */
  function Stored(d: Defaults): Option<Bytes> {
    Lookup(d, UserDefaultsKey)
  }

  /** `d'` differs from `d` at most under the record's key. */
  ghost predicate SameElsewhere(d: Defaults, d': Defaults) {
    && d.Available? == d'.Available?
    && forall key :: key != UserDefaultsKey ==> Lookup(d', key) == Lookup(d, key)
  }

  /**
   * `save(_:)`: when the record encodes and the suite exists, its bytes
   * replace whatever was under the key; otherwise nothing changes. No other
   * key is touched.
   */
  function Save(d: Defaults, codec: Codec, data: LifeTimerData): (d': Defaults)
    ensures SameElsewhere(d, d')
    ensures d.Available? && codec.encode(data).Some? ==> Stored(d') == codec.encode(data)
    ensures d.Unavailable? || codec.encode(data).None? ==> d' == d
  {
    match codec.encode(data)
    case None => d
    case Some(encoded) =>
      match d
      case Unavailable => d
      case Available(entries) => Available(entries[UserDefaultsKey := encoded])
  }

  /**
   * `load()`: the decoded record when the suite exists, holds bytes under
   * the key and those bytes decode; "no record" in every other case, with
   * no error reported.
   */
  function Load(d: Defaults, codec: Codec): (r: Option<LifeTimerData>)
    ensures r.Some? <==> Stored(d).Some? && codec.decode(Stored(d).value).Some?
    ensures r.Some? ==> r == codec.decode(Stored(d).value)
  {
    match Stored(d)
    case None => None
    case Some(bytes) => codec.decode(bytes)
  }

  /** `clear()`: afterwards nothing is stored under the key; no other key is touched. */
  function Clear(d: Defaults): (d': Defaults)
    ensures SameElsewhere(d, d')
    ensures Stored(d') == None
  {
    match d
    case Unavailable => d
    case Available(entries) => Available(entries - {UserDefaultsKey})
  }

  /** A record that was saved is loaded back unchanged. */
  lemma SaveThenLoad(d: Defaults, codec: Codec, data: LifeTimerData)
    requires d.Available? && codec.encode(data).Some?
    requires RoundTripsOn(codec, data)
    ensures Load(Save(d, codec, data), codec) == Some(data)
  {
  }

  /** A second save replaces the first outright: nothing of the first record survives. */
  lemma SaveOverwrites(d: Defaults, codec: Codec, first: LifeTimerData, second: LifeTimerData)
    requires codec.encode(second).Some?
    ensures Save(Save(d, codec, first), codec, second) == Save(d, codec, second)
    ensures RoundTripsOn(codec, second) && d.Available? ==> Load(Save(Save(d, codec, first), codec, second), codec) == Some(second)
  {
    match d
    case Unavailable =>
    case Available(entries) =>
      match codec.encode(first)
      case None =>
      case Some(b) =>
        assert entries[UserDefaultsKey := b][UserDefaultsKey := codec.encode(second).value]
            == entries[UserDefaultsKey := codec.encode(second).value];
  }

  /** After a clear nothing loads, whatever was there before, and clearing again changes nothing. */
  lemma ClearThenLoad(d: Defaults, codec: Codec)
    ensures Load(Clear(d), codec) == None
    ensures Clear(Clear(d)) == Clear(d)
  {
    match d
    case Unavailable =>
    case Available(entries) =>
      assert entries - {UserDefaultsKey} - {UserDefaultsKey} == entries - {UserDefaultsKey};
  }

  /** Bytes that do not decode read as "no record", the same as an empty key. */
  lemma CorruptLoadsNothing(d: Defaults, codec: Codec, bytes: Bytes)
    requires Stored(d) == Some(bytes) && codec.decode(bytes) == None
    ensures Load(d, codec) == None
    ensures Load(d, codec) == Load(Clear(d), codec)
  {
  }

  /** One call the app makes on the store. */
  datatype Op = SaveOp(data: LifeTimerData) | LoadOp | ClearOp

  /** The suite after one call; a load leaves it as it was. */
  function Step(d: Defaults, codec: Codec, op: Op): Defaults {
    match op
    case SaveOp(data) => Save(d, codec, data)
    case LoadOp => d
    case ClearOp => Clear(d)
  }

  /** The suite after a sequence of calls, in order. */
  function Run(d: Defaults, codec: Codec, ops: seq<Op>): Defaults
    decreases |ops|
  {
    if |ops| == 0 then d else Run(Step(d, codec, ops[0]), codec, ops[1..])
  }

  /**
   * Reference account of the key, independent of the suite: `None` when no
   * call in `ops` writes the key, otherwise `Some(v)` where `v` is what the
   * last writing call leaves there. A save whose encoding fails and a load
   * do not write.
   */
  function LastWrite(codec: Codec, ops: seq<Op>): Option<Option<Bytes>>
    decreases |ops|
  {
    if |ops| == 0 then None
    else
      match ops[|ops| - 1]
      case ClearOp => Some(None)
      case SaveOp(data) =>
        if codec.encode(data).Some? then Some(codec.encode(data))
        else LastWrite(codec, ops[..|ops| - 1])
      case LoadOp => LastWrite(codec, ops[..|ops| - 1])
  }

  lemma {:induction false} RunSnoc(d: Defaults, codec: Codec, ops: seq<Op>, op: Op)
    ensures Run(d, codec, ops + [op]) == Step(Run(d, codec, ops), codec, op)
    decreases |ops|
  {
    if |ops| == 0 {
      assert ops + [op] == [op];
    } else {
      assert (ops + [op])[1..] == ops[1..] + [op];
      RunSnoc(Step(d, codec, ops[0]), codec, ops[1..], op);
    }
  }

  /**
   * Over any sequence of calls, the key holds what the last writing call
   * left, or what it held at the start if no call wrote it; the suite stays
   * as available as it was and other keys keep their values.
   */
  lemma {:induction false} RunMatchesLastWrite(d: Defaults, codec: Codec, ops: seq<Op>)
    ensures SameElsewhere(d, Run(d, codec, ops))
    ensures d.Available? ==> Stored(Run(d, codec, ops)) == LastWrite(codec, ops).GetOr(Stored(d))
    ensures d.Unavailable? ==> Run(d, codec, ops) == d
    decreases |ops|
  {
    if |ops| > 0 {
      var init := ops[..|ops| - 1];
      var op := ops[|ops| - 1];
      assert ops == init + [op];
      RunSnoc(d, codec, init, op);
      RunMatchesLastWrite(d, codec, init);
    }
  }

  /** Writes in `suffix` override those before it; with none there, the earlier ones decide. */
  lemma {:induction false} LastWriteAppend(codec: Codec, prefix: seq<Op>, suffix: seq<Op>)
    ensures LastWrite(codec, prefix + suffix) == (if LastWrite(codec, suffix).Some? then LastWrite(codec, suffix) else LastWrite(codec, prefix))
    decreases |suffix|
  {
    if |suffix| == 0 {
      assert prefix + suffix == prefix;
    } else {
      var all := prefix + suffix;
      assert all[..|all| - 1] == prefix + suffix[..|suffix| - 1];
      assert all[|all| - 1] == suffix[|suffix| - 1];
      LastWriteAppend(codec, prefix, suffix[..|suffix| - 1]);
    }
  }

  /**
   * The last successful save wins: after it, any number of loads and failed
   * saves leave that record to be loaded.
   */
  lemma LastSaveWins(d: Defaults, codec: Codec, before: seq<Op>, data: LifeTimerData, after: seq<Op>)
    requires d.Available? && codec.encode(data).Some?
    requires RoundTripsOn(codec, data)
    requires LastWrite(codec, after) == None
    ensures Load(Run(d, codec, before + [SaveOp(data)] + after), codec) == Some(data)
  {
    var ops := before + [SaveOp(data)] + after;
    LastWriteAppend(codec, before + [SaveOp(data)], after);
    assert (before + [SaveOp(data)])[..|before|] == before;
    RunMatchesLastWrite(d, codec, ops);
  }

  /** After a clear, loads and failed saves leave nothing to load. */
  lemma LastClearWins(d: Defaults, codec: Codec, before: seq<Op>, after: seq<Op>)
    requires LastWrite(codec, after) == None
    ensures Load(Run(d, codec, before + [ClearOp] + after), codec) == None
  {
    var ops := before + [ClearOp] + after;
    LastWriteAppend(codec, before + [ClearOp], after);
    RunMatchesLastWrite(d, codec, ops);
  }
}
