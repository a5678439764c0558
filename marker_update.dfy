/**
 * The Android side of a marker update sent by the Dart side of the maps
 * plugin: a key/value message decoded into an immutable record of a marker
 * id, an event kind and an opaque `changes` payload. Equality and hashing look
 * at the id and the kind only; the payload is handed on, untouched, to the
 * interpreter that applies marker options to a sink.
 */
module MarkerUpdates {
  import opened Wrappers
  import opened JavaInt
  import opened MarkerIds

  datatype UpdateEventType = Add | Remove | Update

  /** A value found in the untyped message: Java `null`, a `String`, or any other object. */
  datatype Value = Null | Str(text: string) | Other(handle: nat)

  /** The message as it arrives from the platform channel. */
  type Message = map<string, Value>

  /** The decoded record. Its fields are final in the source; the getters return them. */
  datatype MarkerUpdate = MarkerUpdate(markerId: MarkerId, updateEventType: UpdateEventType, changes: Value)

  /** The exceptions `from` can throw. */
  datatype Error =
    | IllegalArgument(message: string)
    | ClassCast(key: string)

  const MarkerIdKey: string := "markerId"
  const EventTypeKey: string := "updateEventType"
  const ChangesKey: string := "changes"

  /** The three raw strings the Dart enum `MarkerUpdateEventType` is sent as. */
  const AddName: string := "MarkerUpdateEventType.add"
  const UpdateName: string := "MarkerUpdateEventType.update"
  const RemoveName: string := "MarkerUpdateEventType.remove"

  const NullMessage: string := "Invalid MarkerUpdate object. markerId or updateEventType was null."
  const UnknownPrefix: string := "Unknown updateEventType: "

  /** `Map.get`: a missing key reads as `null`, the same as a key mapped to `null`. */
  function Get(m: Message, key: string): (v: Value)
    ensures key !in m ==> v == Null
    ensures key in m ==> v == m[key]
  {
    if key in m then m[key] else Null
  }

  /** The cast `(String) update.get(key)`: `null` and strings pass, anything else throws. */
  function GetString(m: Message, key: string): (r: Result<Option<string>, Error>)
    ensures r.Failure? <==> Get(m, key).Other?
    ensures r.Failure? ==> r.error == ClassCast(key)
    ensures r == Success(None) <==> Get(m, key) == Null
    ensures forall s :: r == Success(Some(s)) <==> Get(m, key) == Str(s)
  {
    match Get(m, key)
    case Null => Success(None)
    case Str(s) => Success(Some(s))
    case Other(_) => Failure(ClassCast(key))
  }

  /** The Dart-side name of an event kind: the string the decoder expects for it. */
  function EventTypeName(k: UpdateEventType): string {
    match k
    case Add => AddName
    case Update => UpdateName
    case Remove => RemoveName
  }

  predicate IsEventTypeName(s: string) {
    s == AddName || s == UpdateName || s == RemoveName
  }

  /** `getUpdateEventType(String)`: exact match against the three names, any other string is rejected. */
  function ParseUpdateEventType(s: string): (r: Result<UpdateEventType, Error>)
    ensures r.Success? <==> IsEventTypeName(s)
    ensures r.Success? ==> EventTypeName(r.value) == s
    ensures r.Failure? ==> r.error == IllegalArgument(UnknownPrefix + s)
  {
    if s == AddName then Success(Add)
    else if s == UpdateName then Success(Update)
    else if s == RemoveName then Success(Remove)
    else Failure(IllegalArgument(UnknownPrefix + s))
  }

  /** Every kind's name parses back to that kind. */
  lemma ParseEventTypeName(k: UpdateEventType)
    ensures ParseUpdateEventType(EventTypeName(k)) == Success(k)
  {
  }

  /** Distinct kinds have distinct names, so the mapping is a bijection onto the three names. */
  lemma EventTypeNameInjective(k1: UpdateEventType, k2: UpdateEventType)
    requires EventTypeName(k1) == EventTypeName(k2)
    ensures k1 == k2
  {
  }

  /** The rejection names the offending string, and different strings give different messages. */
  lemma UnknownMessageNamesInput(s: string, t: string)
    requires !IsEventTypeName(s) && !IsEventTypeName(t)
    ensures ParseUpdateEventType(s).error.message[|UnknownPrefix|..] == s
    ensures s != t ==> ParseUpdateEventType(s) != ParseUpdateEventType(t)
  {
  }

  /**
   * `from`: both casts first (id, then kind), then the null check, then the
   * kind, and only then is a record built, carrying whatever `changes` held.
   */
  function From(m: Message): (r: Result<MarkerUpdate, Error>)
    ensures r.Success? <==>
      Get(m, MarkerIdKey).Str? && Get(m, EventTypeKey).Str? && IsEventTypeName(Get(m, EventTypeKey).text)
    ensures r.Success? ==>
      && Get(m, MarkerIdKey) == Str(r.value.markerId.value)
      && Get(m, EventTypeKey) == Str(EventTypeName(r.value.updateEventType))
      && r.value.changes == Get(m, ChangesKey)
  {
    var id :- GetString(m, MarkerIdKey);
    var kind :- GetString(m, EventTypeKey);
    if id.None? || kind.None? then
      Failure(IllegalArgument(NullMessage))
    else
      var eventType :- ParseUpdateEventType(kind.value);
      Success(MarkerUpdate(MarkerId(id.value), eventType, Get(m, ChangesKey)))
  }

  /** A message with an id string and a recognised kind decodes to that id and kind. */
  lemma FromAccepts(m: Message, id: string, k: UpdateEventType)
    requires Get(m, MarkerIdKey) == Str(id) && Get(m, EventTypeKey) == Str(EventTypeName(k))
    ensures From(m) == Success(MarkerUpdate(MarkerId(id), k, Get(m, ChangesKey)))
  {
  }

  /** An absent or null id or kind is rejected with the null message (once both casts have passed). */
  lemma FromRejectsNull(m: Message)
    requires !Get(m, MarkerIdKey).Other? && !Get(m, EventTypeKey).Other?
    requires Get(m, MarkerIdKey) == Null || Get(m, EventTypeKey) == Null
    ensures From(m) == Failure(IllegalArgument(NullMessage))
  {
  }

  /** A kind string outside the three names is rejected with a message naming it. */
  lemma FromRejectsUnknown(m: Message, s: string)
    requires Get(m, MarkerIdKey).Str? && Get(m, EventTypeKey) == Str(s)
    requires !IsEventTypeName(s)
    ensures From(m) == Failure(IllegalArgument(UnknownPrefix + s))
  {
  }

  /** An id or kind that is neither null nor a string fails its cast, the id's first. */
  lemma FromRejectsNonString(m: Message)
    requires Get(m, MarkerIdKey).Other? || Get(m, EventTypeKey).Other?
    ensures From(m) == Failure(ClassCast(if Get(m, MarkerIdKey).Other? then MarkerIdKey else EventTypeKey))
  {
  }

  /** The message the Dart side sends for a record. */
  function ToMessage(u: MarkerUpdate): Message {
    map[MarkerIdKey := Str(u.markerId.value),
        EventTypeKey := Str(EventTypeName(u.updateEventType)),
        ChangesKey := u.changes]
  }

  /** Decoding the message sent for a record gives back that record, payload included. */
  lemma FromToMessage(u: MarkerUpdate)
    ensures From(ToMessage(u)) == Success(u)
  {
  }

  /** A decoded record re-encodes to a message that agrees with the input on the three keys it reads. */
  lemma ToMessageFrom(m: Message)
    requires From(m).Success?
    ensures forall key :: key in {MarkerIdKey, EventTypeKey, ChangesKey} ==>
      Get(ToMessage(From(m).value), key) == Get(m, key)
  {
  }

  /** What `equals` may be handed: `null`, a `MarkerUpdate`, or an object of another class. */
  datatype Object = NullRef | UpdateRef(update: MarkerUpdate) | OtherClass(handle: nat)

  /** The part of a record that equality and hashing see. */
  function Identity(u: MarkerUpdate): (string, UpdateEventType) {
    (u.markerId.value, u.updateEventType)
  }

  /** `equals`: false for `null` and other classes, otherwise id then kind; `changes` is not compared. */
  predicate Equals(u: MarkerUpdate, o: Object)
    ensures Equals(u, o) <==> o.UpdateRef? && Identity(u) == Identity(o.update)
  {
    match o
    case NullRef => false
    case OtherClass(_) => false
    case UpdateRef(that) =>
      if !u.markerId.Equals(that.markerId) then false
      else u.updateEventType == that.updateEventType
  }

  lemma EqualsReflexive(u: MarkerUpdate)
    ensures Equals(u, UpdateRef(u))
  {
  }

  lemma EqualsSymmetric(u: MarkerUpdate, v: MarkerUpdate)
    ensures Equals(u, UpdateRef(v)) <==> Equals(v, UpdateRef(u))
  {
  }

  lemma EqualsTransitive(u: MarkerUpdate, v: MarkerUpdate, w: MarkerUpdate)
    requires Equals(u, UpdateRef(v)) && Equals(v, UpdateRef(w))
    ensures Equals(u, UpdateRef(w))
  {
  }

  lemma EqualsRejectsNullAndOtherClasses(u: MarkerUpdate, handle: nat)
    ensures !Equals(u, NullRef) && !Equals(u, OtherClass(handle))
  {
  }

  /** Records differing only in their payload are equal. */
  lemma EqualsIgnoresChanges(u: MarkerUpdate, changes: Value)
    ensures Equals(u, UpdateRef(u.(changes := changes)))
  {
  }

  /**
   * An enum's `hashCode` is `Object.hashCode`, fixed per run by the JVM and not
   * by the source, so the three values are a parameter of the model.
   */
  datatype EnumHashes = EnumHashes(add: int32, remove: int32, update: int32)

  function EnumHashCode(k: UpdateEventType, hashes: EnumHashes): int32 {
    match k
    case Add => hashes.add
    case Remove => hashes.remove
    case Update => hashes.update
  }

  /**
   * `hashCode`: `31 * markerId.hashCode() + updateEventType.hashCode()` in `int`
   * arithmetic. Written out, the id's code units are weighted by descending
   * powers of 31, times 31, plus the kind's hash, all modulo 2^32.
   */
  function HashCode(u: MarkerUpdate, hashes: EnumHashes): (h: int32)
    ensures h == Wrap(31 * Polynomial(Utf16(u.markerId.value)) + EnumHashCode(u.updateEventType, hashes) as int)
  {
    WrapMulAdd(Polynomial(Utf16(u.markerId.value)), 31, EnumHashCode(u.updateEventType, hashes) as int);
    Wrap(31 * u.markerId.HashCode() as int + EnumHashCode(u.updateEventType, hashes) as int)
  }

  /** Equal records have equal hashes, whatever their payloads. */
  lemma HashCodeConsistent(u: MarkerUpdate, v: MarkerUpdate, hashes: EnumHashes)
    requires Equals(u, UpdateRef(v))
    ensures HashCode(u, hashes) == HashCode(v, hashes)
  {
  }

  /**
   * The receiving end of `Convert.interpretMarkerOptions`: it records, in
   * order, every payload it has been asked to interpret.
   */
  class OptionsSink {
    var interpreted: seq<Value>

    constructor ()
      ensures interpreted == []
    {
      interpreted := [];
    }
  }

  /** `sinkChanges`: the stored payload goes to the interpreter once, as it is, whatever it holds. */
  method SinkChanges(u: MarkerUpdate, sink: OptionsSink)
    modifies sink
    ensures sink.interpreted == old(sink.interpreted) + [u.changes]
  {
    sink.interpreted := sink.interpreted + [u.changes];
  }
}
