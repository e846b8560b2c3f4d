/**
  The storage accessor of the extension utilities: `asyncGet` and `asyncSet`
  over the extension's local key/value area.

  The host area itself, the analytics module that receives error reports and
  the messaging module that broadcasts notifications are outside the model:
  the host's success or failure is an input to each call, and the two
  collaborators are logs held by the `LocalStore` object.
 */
module ChromeStorage {

  /** A JavaScript value as far as the accessor can tell values apart.
      `Undefined` and `Null` are distinct sentinels. */
  datatype Value =
    | Undefined
    | Null
    | Bool(b: bool)
    | Num(n: int)
    | Str(s: string)
    | List(items: seq<Value>)
    | Record(fields: map<string, Value>)

  /** How a host call settled: resolved, or rejected with an error message. */
  datatype HostOutcome = Resolved | Rejected(message: string)

  /** One call of the analytics error reporter: the message and the context tag. */
  datatype Report = Report(message: string, context: string)

  /** The message types this accessor sends. */
  datatype MessageType = StorageExceeded

  /** One attempt to broadcast a message, with how the delivery settled
      (a rejected delivery is swallowed by the sender). */
  datatype SendAttempt = SendAttempt(msg: MessageType, delivery: HostOutcome)

  /** The context tag `asyncGet` passes to the error reporter. */
  const GetContext: string := "ChromeStorage.asyncGet"

  /** What `res[key]` evaluates to after a resolved host read of `[key]`, for
      a key that does not name an inherited property of the result object:
      the stored value, or `undefined` when the key is not stored. */
  function Lookup(store: map<string, Value>, key: string): Value {
    if key in store then store[key] else Undefined
  }

  /** Whether the caller supplied a default (`def !== undefined`). This is not
      a truthiness test: `false`, `0`, `""` and `null` are all supplied. */
  predicate Supplied(def: Value) {
    !def.Undefined?
  }

  /** The value `asyncGet` returns, by cases on the outcome of the host read. */
  function GetResult(store: map<string, Value>, key: string, def: Value, read: HostOutcome): Value {
    if read.Rejected? then
      (if Supplied(def) then def else Null)
    else if Supplied(Lookup(store, key)) then
      Lookup(store, key)
    else
      def
  }

  /** The diagnostics `asyncGet` sends: one report exactly when the read is rejected. */
  function GetReports(read: HostOutcome): seq<Report> {
    if read.Rejected? then [Report(read.message, GetContext)] else []
  }

  /** The store after `asyncSet`: the single key is written when the host write
      resolves; a rejected write leaves the store as it was (the host write is
      taken to be atomic). The value is stored as given, without the host's
      serialisation. */
  function StoreAfterSet(store: map<string, Value>, key: string, value: Value, write: HostOutcome): map<string, Value> {
    if write.Resolved? then store[key := value] else store
  }

  /** The broadcasts `asyncSet` attempts: one `StorageExceeded` exactly when the write is rejected. */
  function SetBroadcasts(write: HostOutcome, delivery: HostOutcome): seq<SendAttempt> {
    if write.Rejected? then [SendAttempt(StorageExceeded, delivery)] else []
  }

  /** The extension's local storage area together with the two logs that
      stand for the analytics and messaging collaborators. */
  class LocalStore {
    var items: map<string, Value>
    var reports: seq<Report>
    var sent: seq<SendAttempt>

    constructor (initial: map<string, Value>)
      ensures items == initial && reports == [] && sent == []
    {
      items := initial;
      reports := [];
      sent := [];
    }

    /** `asyncGet(key, def)`: `read` is how the host read settles. Never fails;
        never changes the store; reports exactly one error on a rejected read. */
    method AsyncGet(key: string, def: Value, read: HostOutcome) returns (value: Value)
      modifies this`reports
      ensures value == GetResult(items, key, def, read)
      ensures reports == old(reports) + GetReports(read)
      ensures items == old(items) && sent == old(sent)
    {
      value := Null;
      match read {
        case Resolved =>
          value := Lookup(items, key);
        case Rejected(message) =>
          reports := reports + [Report(message, GetContext)];
          if def != Undefined {
            value := def;
          }
      }
      if value == Undefined {
        // probably not in storage
        if def != Undefined {
          value := def;
        }
      }
    }

    /** `asyncSet(key, value, keyBool)`: `write` is how the host write settles
        and `delivery` how the failure broadcast settles. `keyBool` is accepted
        and ignored, as in the source. */
    method AsyncSet(key: string, value: Value, keyBool: Value, write: HostOutcome, delivery: HostOutcome)
      returns (ret: bool)
      modifies this`items, this`sent
      ensures ret <==> write.Resolved?
      ensures items == StoreAfterSet(old(items), key, value, write)
      ensures sent == old(sent) + SetBroadcasts(write, delivery)
      ensures reports == old(reports)
    {
      ret := true;
      match write {
        case Resolved =>
          items := items[key := value];
        case Rejected(_) =>
          // notify listeners save failed; a rejected delivery is swallowed
          sent := sent + [SendAttempt(StorageExceeded, delivery)];
          ret := false;
      }
    }
  }

  /** A caller that writes and then reads the same key through one store:
      when both host calls resolve, the read returns what was written. */
  method SetThenGet(st: LocalStore, key: string, value: Value, keyBool: Value, def: Value)
    returns (ok: bool, got: Value)
    requires value != Undefined
    modifies st
    ensures ok && got == value
    ensures st.items == old(st.items)[key := value]
    ensures st.reports == old(st.reports) && st.sent == old(st.sent)
  {
    ok := st.AsyncSet(key, value, keyBool, Resolved, Resolved);
    got := st.AsyncGet(key, def, Resolved);
    SetThenGetRoundTrip(old(st.items), key, value, def);
  }

  // ---------------------------------------------------------------------
  // Properties of asyncGet

  /** A resolved read of a key holding a defined value returns that value,
      whatever the default. */
  lemma GetReturnsStored(store: map<string, Value>, key: string, def: Value)
    requires key in store && store[key] != Undefined
    ensures GetResult(store, key, def, Resolved) == store[key]
  {
  }

  /** A resolved read of an absent key returns the default when one is
      supplied, and the lookup's `undefined` (not `null`) when none is. */
  lemma GetAbsentKey(store: map<string, Value>, key: string, def: Value)
    requires key !in store
    ensures Supplied(def) ==> GetResult(store, key, def, Resolved) == def
    ensures !Supplied(def) ==> GetResult(store, key, def, Resolved) == Undefined
  {
  }

  /** A rejected read returns the default when one is supplied and the
      initial `null` otherwise, and yields exactly one report tagged
      with the accessor's context. */
  lemma GetRejected(store: map<string, Value>, key: string, def: Value, message: string)
    ensures GetResult(store, key, def, Rejected(message)) == (if def == Undefined then Null else def)
    ensures GetReports(Rejected(message)) == [Report(message, "ChromeStorage.asyncGet")]
  {
  }

  /** A resolved read sends no report. */
  lemma GetResolvedIsSilent()
    ensures GetReports(Resolved) == []
  {
  }

  /** Falsy defaults are honoured: `false`, `0`, `""` and `null` are returned
      for an absent key and for a rejected read, just as any other default. */
  lemma FalsyDefaultsHonoured(store: map<string, Value>, key: string, def: Value, read: HostOutcome)
    requires def in {Bool(false), Num(0), Str(""), Null}
    requires key !in store || read.Rejected?
    ensures GetResult(store, key, def, read) == def
  {
  }

  /** A stored `null` is a defined value: it is returned and the default is
      not substituted for it. */
  lemma StoredNullIsReturned(store: map<string, Value>, key: string, def: Value)
    requires key in store && store[key] == Null
    ensures GetResult(store, key, def, Resolved) == Null
  {
  }

  /** Without a default, the caller can tell neither a stored `null` from a
      rejected read, nor an absent key from a stored `undefined`. */
  lemma GetCannotTellFailureFromNull(store: map<string, Value>, key: string, message: string)
    requires key in store && store[key] == Null
    ensures GetResult(store, key, Undefined, Resolved) == GetResult(store, key, Undefined, Rejected(message))
    ensures GetResult(store[key := Undefined], key, Undefined, Resolved)
         == GetResult(store - {key}, key, Undefined, Resolved)
  {
  }

  // ---------------------------------------------------------------------
  // Properties of asyncSet

  /** A resolved write maps `key` to `value` and leaves every other key as it
      was; a rejected write leaves the whole store as it was. */
  lemma SetWritesOneKey(store: map<string, Value>, key: string, value: Value, write: HostOutcome)
    ensures write.Resolved? ==>
              key in StoreAfterSet(store, key, value, write) && StoreAfterSet(store, key, value, write)[key] == value
    ensures write.Resolved? ==> StoreAfterSet(store, key, value, write).Keys == store.Keys + {key}
    ensures forall k :: k != key ==> Lookup(StoreAfterSet(store, key, value, write), k) == Lookup(store, k)
    ensures write.Rejected? ==> StoreAfterSet(store, key, value, write) == store
  {
  }

  /** A rejected write attempts exactly one `StorageExceeded` broadcast,
      whether or not its delivery succeeds; a resolved write attempts none. */
  lemma SetBroadcastsOnFailureOnly(write: HostOutcome, delivery: HostOutcome)
    ensures |SetBroadcasts(write, delivery)| == (if write.Rejected? then 1 else 0)
    ensures forall m :: m in SetBroadcasts(write, delivery) ==> m.msg == StorageExceeded
  {
  }

  /** Round trip: after a resolved write of a defined value, a resolved read
      of the same key returns that value for any default. */
  lemma SetThenGetRoundTrip(store: map<string, Value>, key: string, value: Value, def: Value)
    requires value != Undefined
    ensures GetResult(StoreAfterSet(store, key, value, Resolved), key, def, Resolved) == value
  {
  }

  /** The round trip needs a defined value: a stored `undefined` reads back
      as the default (or `undefined` when none is supplied). */
  lemma SetUndefinedReadsDefault(store: map<string, Value>, key: string, def: Value)
    ensures GetResult(StoreAfterSet(store, key, Undefined, Resolved), key, def, Resolved) == def
  {
  }

  /** A write to one key does not change what a read of another key returns. */
  lemma SetDoesNotDisturbOtherKeys(store: map<string, Value>, key: string, other: string,
                                   value: Value, def: Value, write: HostOutcome, read: HostOutcome)
    requires other != key
    ensures GetResult(StoreAfterSet(store, key, value, write), other, def, read)
         == GetResult(store, other, def, read)
  {
  }
}
