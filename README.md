# Marker updates of the Google Maps plugin, Android side

The Google Maps plugin sends marker changes from its Dart side to Android as
loosely typed maps. `MarkerUpdate` decodes one such map into an immutable
record: the marker id, the event kind (`ADD`, `REMOVE`, `UPDATE`) and an
opaque `changes` payload. Equality and hashing look only at the id and the
kind. `sinkChanges` hands the payload on, untouched, to the options
interpreter that drives a marker options sink.

This project models that class in Dafny:

- `wrappers.dfy` (module `Wrappers`): `Option` and a `Result` usable with `:-`.
  The decoder's exceptions become `Failure` values.
- `java_int.dfy` (module `JavaInt`): Java's 32-bit `int`, as `int32`. `Wrap` is
  the two's-complement reduction that every `int` `+` and `*` performs. The lemmas
  show that wrapping an intermediate result changes nothing.
- `marker_id.dfy` (module `MarkerIds`): the marker id is a string wrapper. Its
  `hashCode` is `java.lang.String.hashCode`: the loop `h = 31 * h + unit` over the
  string's UTF-16 code units. This is proved equal to the documented polynomial
  `s[0]*31^(n-1) + ... + s[n-1]`, reduced to 32 bits.
- `marker_update.dfy` (module `MarkerUpdates`): the message and the record, the
  decoder `From`, the event-kind mapping, `equals`, `hashCode`, and `sinkChanges`.
  `sinkChanges` is a method on a sink object that records each payload it is given.

Error paths of `from`, as the code has them:

- `from` throws `IllegalArgumentException` both for a null field (line 28) and
  for an unknown kind (line 46). The model has `IllegalArgument(NullMessage)` and
  `IllegalArgument(UnknownPrefix + s)`, with the messages of the source.
- The casts at lines 24-25 run before the null check. So an entry that is neither
  null nor a string fails first with `ClassCast`, the id's cast before the kind's.

## Model

| member | source | states |
|---|---|---|
| MarkerUpdates.ParseUpdateEventType | packages/google_maps_flutter/android/src/main/java/io/flutter/plugins/googlemaps/MarkerUpdate.java:37-48 | succeeds exactly on the three names; a success returns the kind whose name is the input; any other string fails with `IllegalArgument("Unknown updateEventType: " + s)` |
| MarkerUpdates.ParseEventTypeName | packages/google_maps_flutter/android/src/main/java/io/flutter/plugins/googlemaps/MarkerUpdate.java:38-44 | each kind's Dart name parses back to that kind |
| MarkerUpdates.EventTypeNameInjective | packages/google_maps_flutter/android/src/main/java/io/flutter/plugins/googlemaps/MarkerUpdate.java:38-44 | distinct kinds have distinct names, so the mapping is one-to-one on the three literals |
| MarkerUpdates.UnknownMessageNamesInput | packages/google_maps_flutter/android/src/main/java/io/flutter/plugins/googlemaps/MarkerUpdate.java:45-46 | the rejection message ends with the exact offending string, and different strings give different errors |
| MarkerUpdates.Get | packages/google_maps_flutter/android/src/main/java/io/flutter/plugins/googlemaps/MarkerUpdate.java:24-26 | `Map.get`: a present key gives its value; an absent key reads as null, the same as a key mapped to null |
| MarkerUpdates.GetString | packages/google_maps_flutter/android/src/main/java/io/flutter/plugins/googlemaps/MarkerUpdate.java:23-25 | the `(String)` cast of a map entry: absent or null gives no string, a string gives itself, any other object fails with a cast error for that key |
| MarkerUpdates.From | packages/google_maps_flutter/android/src/main/java/io/flutter/plugins/googlemaps/MarkerUpdate.java:22-35 | decoding succeeds iff the id and kind entries are strings and the kind is one of the three names; on success, the record's id and kind name are the message's entries and `changes` is the message's payload (null if absent) |
| MarkerUpdates.FromAccepts | packages/google_maps_flutter/android/src/main/java/io/flutter/plugins/googlemaps/MarkerUpdate.java:22-35 | a message with id string I and the name of kind K decodes to the record (I, K, payload) |
| MarkerUpdates.FromRejectsNull | packages/google_maps_flutter/android/src/main/java/io/flutter/plugins/googlemaps/MarkerUpdate.java:27-30 | with both entries null-or-string, an absent or null id or kind fails with the null message and builds no record |
| MarkerUpdates.FromRejectsUnknown | packages/google_maps_flutter/android/src/main/java/io/flutter/plugins/googlemaps/MarkerUpdate.java:32-34 | an id string with an unrecognised kind string s fails with `"Unknown updateEventType: " + s` |
| MarkerUpdates.FromRejectsNonString | packages/google_maps_flutter/android/src/main/java/io/flutter/plugins/googlemaps/MarkerUpdate.java:23-25 | a non-string, non-null id or kind fails its cast, the id's cast first |
| MarkerUpdates.FromToMessage | packages/google_maps_flutter/android/src/main/java/io/flutter/plugins/googlemaps/MarkerUpdate.java:50-62 | decoding the message the Dart side sends for a record gives back that record, so the getters return the constructed id and kind and the payload unchanged |
| MarkerUpdates.ToMessageFrom | packages/google_maps_flutter/android/src/main/java/io/flutter/plugins/googlemaps/MarkerUpdate.java:22-26 | a decoded record re-encodes to a message agreeing with the input on `markerId`, `updateEventType` and `changes` |
| MarkerUpdates.Equals | packages/google_maps_flutter/android/src/main/java/io/flutter/plugins/googlemaps/MarkerUpdate.java:69-83 | true exactly for another record with the same id string and kind; false for null and other classes; the payload is not compared |
| MarkerUpdates.EqualsReflexive | packages/google_maps_flutter/android/src/main/java/io/flutter/plugins/googlemaps/MarkerUpdate.java:70-72 | every record equals itself |
| MarkerUpdates.EqualsSymmetric | packages/google_maps_flutter/android/src/main/java/io/flutter/plugins/googlemaps/MarkerUpdate.java:77-82 | equality is symmetric |
| MarkerUpdates.EqualsTransitive | packages/google_maps_flutter/android/src/main/java/io/flutter/plugins/googlemaps/MarkerUpdate.java:77-82 | equality is transitive |
| MarkerUpdates.EqualsRejectsNullAndOtherClasses | packages/google_maps_flutter/android/src/main/java/io/flutter/plugins/googlemaps/MarkerUpdate.java:73-75 | comparing with null or an object of another class gives false |
| MarkerUpdates.EqualsIgnoresChanges | packages/google_maps_flutter/android/src/main/java/io/flutter/plugins/googlemaps/MarkerUpdate.java:19-20 | records differing only in `changes` are equal |
| MarkerUpdates.HashCode | packages/google_maps_flutter/android/src/main/java/io/flutter/plugins/googlemaps/MarkerUpdate.java:86-90 | the hash is `31 * (id's polynomial string hash) + kind hash` reduced to 32 bits |
| MarkerUpdates.HashCodeConsistent | packages/google_maps_flutter/android/src/main/java/io/flutter/plugins/googlemaps/MarkerUpdate.java:86-90 | equal records have equal hashes, whatever their payloads |
| MarkerUpdates.SinkChanges | packages/google_maps_flutter/android/src/main/java/io/flutter/plugins/googlemaps/MarkerUpdate.java:64-66 | the sink receives the stored payload exactly once, unmodified, whether it is null or not, and nothing else |
| MarkerUpdates.OptionsSink.constructor | packages/google_maps_flutter/android/src/main/java/io/flutter/plugins/googlemaps/MarkerUpdate.java:64 | the `MarkerOptionsSink` handed to `sinkChanges`; a new sink has been handed no payload |
| MarkerIds.MarkerId.HashCode | packages/google_maps_flutter/android/src/main/java/io/flutter/plugins/googlemaps/MarkerUpdate.java:87 | the id's hash is the polynomial over its UTF-16 code units with weights 31^k, reduced to 32 bits |
| MarkerIds.HashFromIsPolynomial | packages/google_maps_flutter/android/src/main/java/io/flutter/plugins/googlemaps/MarkerUpdate.java:87 | the overflowing `h = 31 * h + unit` loop from any start h equals `h * 31^n + polynomial`, reduced to 32 bits |
| MarkerIds.MarkerId.Equals | packages/google_maps_flutter/android/src/main/java/io/flutter/plugins/googlemaps/MarkerUpdate.java:79 | two ids are equal exactly when they are the same id, i.e. wrap the same string |
| MarkerIds.EqualIdsHashAlike | packages/google_maps_flutter/android/src/main/java/io/flutter/plugins/googlemaps/MarkerUpdate.java:79 | ids equal under `MarkerId.equals` have equal hashes |
| MarkerIds.CodeUnits | packages/google_maps_flutter/android/src/main/java/io/flutter/plugins/googlemaps/MarkerUpdate.java:87 | a character below U+10000 is one code unit; any other is a high and a low surrogate that decode back to it |
| JavaInt.Wrap | packages/google_maps_flutter/android/src/main/java/io/flutter/plugins/googlemaps/MarkerUpdate.java:88 | the result differs from the exact value by a multiple of 2^32, and equals it when it is in `int` range |
| JavaInt.WrapMulAdd | packages/google_maps_flutter/android/src/main/java/io/flutter/plugins/googlemaps/MarkerUpdate.java:88 | `31 * result + e` in `int` arithmetic from a wrapped result equals wrapping the exact value once |

## Left out

- `toString` (lines 92-102): diagnostic text with no contract.
- `Convert.interpretMarkerOptions` is not part of this model. The sink records the payloads it is handed. What the interpreter does with a payload (the setter calls on a marker) is not modelled.
- The `MarkerId` class is not part of this model. It is taken to be a wrapper of one string, with that string's `equals` and `hashCode`.
- The `this == o` shortcut in `equals` (lines 70-72): records are values here, so reference identity is not modelled. The shortcut gives the same answer as the field comparison (`EqualsReflexive`).
- The cast of the whole message to `Map` (line 23): the input is always a map here, so that `ClassCastException` is not modelled.
- `Enum.hashCode` is `Object.hashCode`, chosen by the JVM at run time. The three kind hashes are a parameter (`EnumHashes`), not fixed values.
- Java strings may hold unpaired surrogates; Dafny strings cannot, so ids with unpaired surrogates are not modelled.
- The payload is opaque: a value other than null or a string is an `Other` handle, and nothing inspects it.
- The iOS header `packages/google_maps_flutter/ios/Classes/GoogleMapMarkerController.h` holds declarations only (the sink protocol, the controller, the iOS record). It has no logic to model.
