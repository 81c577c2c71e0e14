# Cryostat: development Basic authentication and the discovery tree

This project models two parts of Cryostat in Dafny and proves properties about them.

**Development-profile Basic authentication.** `DevBasicAuthMechanism` reads the `Authorization` header. It finds a `Basic` credential in it with a case-insensitive, multi-line regular expression, then decodes the token as base 64. The decoded text is split at every colon, with trailing empty parts dropped. Only a split into exactly two parts is handed to the identity provider as a username/password request. The mechanism also sends a fixed challenge and declares the one kind of credential it builds.

- `Authenticate` maps an optional header value to an `Outcome`:
  - `NoDecision`: there is no header.
  - `Unauthorized`: the pattern fails, or the split does not give two parts.
  - `DecodeError`: the base 64 decoder rejects the token.
  - `Forward(username, password)`: the pair is passed on.
- The pattern is `^Basic[\s]+([a-zA-Z0-9+=/]+$)`, compiled with `CASE_INSENSITIVE | MULTILINE` and searched for with `find()`. It is modelled with the anchor rules of `java.util.regex`:
  - `^` holds at the start of the input, or after a line terminator other than the CR of a CR LF pair, and never at the end of the input.
  - `$` holds at the end, or before a line terminator that is not inside a CR LF pair.
  - The leftmost match wins.
- Decoding follows `java.util.Base64.getDecoder()` (module `Base64`):
  - `=` padding is optional.
  - Padding that is present must be complete, and nothing may follow it.
  - A single character left in the last unit is an error.
  - Trailing bits that do not reach a byte are ignored.
- The split follows `String.split(":")` (module `JavaSplit`). It is applied to the decoded bytes at 0x3A. In UTF-8 that byte never occurs inside a multi-byte sequence, so splitting the bytes and splitting the decoded text cut in the same places.

**Discovery tree.** `DiscoveryNode` entities form a tree: Universe, then realms, then environments, then JVM targets. The model keeps them in `Discovery.NodeStore`, a table from id to node record, plus the next id to hand out:
- `environment` and `target` each insert one fresh record.
- `getUniverse` finds the unique Universe or creates it.
- `getRealm` returns the first child of the Universe with the requested name.
- `equals` compares target, labels and children, the children element by element with `equals` again. It is shown to be exactly equality of the ghost `Shape` of the two nodes: the tree stripped of ids, names and node types.

Two points where the code's behaviour needs care:
- **The split.** Section 2 of RFC 7617 separates user-id and password at the first colon, so a password may itself contain colons. The code splits at every colon and then drops trailing empty parts. So `"a:b:c"` is refused, `"a:b:"` forwards `("a", "b")`, and a password that contains a colon can never be forwarded.
- **Line terminators.** The model keeps the pattern's `MULTILINE` anchors. A header that holds CR, LF, NEL, U+2028 or U+2029 is handled as `java.util.regex` handles it.

## Model

| member | source | states |
|---|---|---|
| DevBasicAuth.Authenticate | src/main/java/io/cryostat/security/auth/DevBasicAuthMechanism.java:78-98 | no decision exactly when there is no header; Unauthorized when the pattern finds no match; a decode error exactly when the matched token is not valid base 64; a forwarded pair never holds a colon and its password is not empty |
| DevBasicAuth.RoundTrip | src/main/java/io/cryostat/security/auth/DevBasicAuthMechanism.java:89-97 | the scheme in any case, white space and the base 64 of u + ":" + p, followed by any number of colons, forwards exactly (u, p) for colon-free u and non-empty colon-free p; u may be empty |
| DevBasicAuth.ForwardShape | src/main/java/io/cryostat/security/auth/DevBasicAuthMechanism.java:90-97 | conversely, a forwarded (u, p) came from a payload that is u, one colon, p and nothing but colons after it |
| DevBasicAuth.ColonInPasswordRefused | src/main/java/io/cryostat/security/auth/DevBasicAuthMechanism.java:90-94 | a payload of three colon-separated parts, as in "a:b:c", is Unauthorized |
| DevBasicAuth.EmptyPasswordRefused | src/main/java/io/cryostat/security/auth/DevBasicAuthMechanism.java:90-94 | a payload ending in colons with nothing after the first one, as in "user:" or ":", is Unauthorized |
| DevBasicAuth.NoColonRefused | src/main/java/io/cryostat/security/auth/DevBasicAuthMechanism.java:90-94 | a payload without a colon is Unauthorized (the empty payload cannot arise, see EmptyPayloadUnreachable) |
| DevBasicAuth.EmptyPayloadUnreachable | src/main/java/io/cryostat/security/auth/DevBasicAuthMechanism.java:85-91 | no header yields an empty payload: a matched token is non-empty, and a non-empty token fails to decode or gives at least one byte |
| DevBasicAuth.SchemeCaseIgnored | src/main/java/io/cryostat/security/auth/DevBasicAuthMechanism.java:73-75 | a header that starts with the scheme in any mix of cases has the same outcome as the one that starts with "Basic" |
| DevBasicAuth.MisplacedPadIsDecodeError | src/main/java/io/cryostat/security/auth/DevBasicAuthMechanism.java:89-91 | a token the pattern admits that opens with '=' gives a decode error, not Unauthorized |
| DevBasicAuth.EncodingIsToken | src/main/java/io/cryostat/security/auth/DevBasicAuthMechanism.java:73-75 | every padded base 64 encoding of a non-empty payload is a non-empty run of the pattern's token class |
| DevBasicAuth.Challenge | src/main/java/io/cryostat/security/auth/DevBasicAuthMechanism.java:100-107 | the challenge is status 401, header "X-WWW-Authenticate" and content "Basic", whatever the request |
| DevBasicAuth.CredentialTypes | src/main/java/io/cryostat/security/auth/DevBasicAuthMechanism.java:109-112 | the credential types are exactly the username/password request |
| BasicHeader.Run | src/main/java/io/cryostat/security/auth/DevBasicAuthMechanism.java:73-75 | a greedy run is the longest prefix inside the character class |
| BasicHeader.MatchAfterScheme | src/main/java/io/cryostat/security/auth/DevBasicAuthMechanism.java:73-75 | a result cuts the text after the scheme into one or more white-space characters, one or more token characters and a rest at which `$` holds |
| BasicHeader.MatchAt | src/main/java/io/cryostat/security/auth/DevBasicAuthMechanism.java:73-75 | an attempt that succeeds satisfies the whole pattern at its position: `^`, the scheme in any case, white space, a token and `$` |
| BasicHeader.MatchAtComplete | src/main/java/io/cryostat/security/auth/DevBasicAuthMechanism.java:73-75 | every way the pattern can match at a position is the one the attempt returns, so giving characters back from the greedy runs never rescues a failed attempt |
| BasicHeader.FindFrom | src/main/java/io/cryostat/security/auth/DevBasicAuthMechanism.java:85-86 | find() returns a position where an attempt succeeds, and every attempt before it fails; no result means every attempt fails |
| BasicHeader.FindWholeHeader | src/main/java/io/cryostat/security/auth/DevBasicAuthMechanism.java:85-89 | the header scheme + white space + token matches at position 0, and group 1 is the whole token |
| BasicHeader.SchemeCaseIgnored | src/main/java/io/cryostat/security/auth/DevBasicAuthMechanism.java:73-75 | the search result does not depend on the case of the scheme |
| BasicHeader.FindFromAgree | src/main/java/io/cryostat/security/auth/DevBasicAuthMechanism.java:85-86 | two headers that agree after their first five characters, with no line terminator among those five, give the same search result from position 1 on |
| Base64.CharOf | src/main/java/io/cryostat/security/auth/DevBasicAuthMechanism.java:91 | the alphabet character for a 6-bit value decodes back to that value |
| Base64.Decode | src/main/java/io/cryostat/security/auth/DevBasicAuthMechanism.java:91 | a decoded token is alphabet characters up to the first '=', followed by nothing or by exactly the padding the decoded length calls for; its values are those of the encoding of the result, but for the unused low bits of the last value |
| Base64.EncodeDecodeSextets | src/main/java/io/cryostat/security/auth/DevBasicAuthMechanism.java:91 | encoding decoded values gives them back, but for the unused low bits of the last value |
| Base64.DecodeAcceptsValues | src/main/java/io/cryostat/security/auth/DevBasicAuthMechanism.java:91 | conversely, any alphabet characters that leave no lone character in the last unit decode, unpadded or with complete padding, whatever their unused bits hold |
| Base64.LoneCharacterRejected | src/main/java/io/cryostat/security/auth/DevBasicAuthMechanism.java:91 | a single character left in the last unit is an error, padded or not, as in "AAAAA" |
| Base64.IncompletePaddingRejected | src/main/java/io/cryostat/security/auth/DevBasicAuthMechanism.java:91 | a unit of two values with a single '=', as in "AA=", is an error |
| Base64.EmptyOnlyFromEmpty | src/main/java/io/cryostat/security/auth/DevBasicAuthMechanism.java:91 | only the empty token decodes to no bytes |
| Base64.PadStart | src/main/java/io/cryostat/security/auth/DevBasicAuthMechanism.java:91 | the position of the first '=', or the length when there is none |
| Base64.DecodeSextets | src/main/java/io/cryostat/security/auth/DevBasicAuthMechanism.java:91 | n values decode to 3 bytes per full unit, plus one byte less than the values in a final partial unit |
| Base64.DecodeEncodeSextets | src/main/java/io/cryostat/security/auth/DevBasicAuthMechanism.java:91 | decoding the 6-bit values of an encoding gives back the bytes |
| Base64.RoundTrip | src/main/java/io/cryostat/security/auth/DevBasicAuthMechanism.java:91 | the decoder returns the bytes of any padded encoding |
| Base64.RoundTripUnpadded | src/main/java/io/cryostat/security/auth/DevBasicAuthMechanism.java:91 | the decoder also returns the bytes of an encoding with its padding left off |
| Base64.PadOpeningUnitRejected | src/main/java/io/cryostat/security/auth/DevBasicAuthMechanism.java:91 | a '=' at the first position of a unit is an error, whatever follows |
| Base64.LeadingPadRejected | src/main/java/io/cryostat/security/auth/DevBasicAuthMechanism.java:91 | a token that opens with '=' is an error |
| Base64.TrailingAfterPaddingRejected | src/main/java/io/cryostat/security/auth/DevBasicAuthMechanism.java:91 | anything after complete padding is an error |
| JavaSplit.Split | src/main/java/io/cryostat/security/auth/DevBasicAuthMechanism.java:91 | no part contains the separator |
| JavaSplit.DropTrailingEmpty | src/main/java/io/cryostat/security/auth/DevBasicAuthMechanism.java:91 | the result is a prefix that ends in a non-empty piece, and only empty pieces are dropped |
| JavaSplit.JoinPieces | src/main/java/io/cryostat/security/auth/DevBasicAuthMechanism.java:91 | joining the pieces with the separator gives back the input |
| JavaSplit.PiecesJoin | src/main/java/io/cryostat/security/auth/DevBasicAuthMechanism.java:91 | cutting a join of separator-free pieces gives back those pieces |
| JavaSplit.SplitPair | src/main/java/io/cryostat/security/auth/DevBasicAuthMechanism.java:90-92 | u, a separator, non-empty p and any number of further separators split into exactly [u, p] |
| JavaSplit.SplitTwoShape | src/main/java/io/cryostat/security/auth/DevBasicAuthMechanism.java:90-92 | a split into two parts came from part 0, one separator, a non-empty part 1 and separators only |
| JavaSplit.SplitThree | src/main/java/io/cryostat/security/auth/DevBasicAuthMechanism.java:90-92 | a separator inside the second part gives three parts |
| JavaSplit.SplitTrailingOnly | src/main/java/io/cryostat/security/auth/DevBasicAuthMechanism.java:90-92 | separators only at the end leave one part, or none when the part before them is empty |
| Discovery.FirstNamed | src/main/java/io/cryostat/discovery/DiscoveryNode.java:113-115 | the index of the first child with the name, every earlier child named otherwise; none when no child has it; nodeType is not looked at |
| Discovery.NodeStore.Insert | src/main/java/io/cryostat/discovery/DiscoveryNode.java:124 | persist() of a childless node adds it under the next fresh id, keeps every other record and keeps the table well formed |
| Discovery.NodeStore.Environment | src/main/java/io/cryostat/discovery/DiscoveryNode.java:117-126 | exactly one node is added under a fresh id, with the given name and type, empty labels, empty children and no target; the table stays well formed |
| Discovery.NodeStore.TargetNode | src/main/java/io/cryostat/discovery/DiscoveryNode.java:128-137 | exactly one leaf is added under a fresh id, named after the connect URL, with type "JVM", the target's labels, null children and the target itself |
| Discovery.NodeStore.GetUniverse | src/main/java/io/cryostat/discovery/DiscoveryNode.java:107-111 | with no Universe, exactly one fresh Universe node is inserted and returned; with one, it is returned and the store is unchanged; with more than one, NonUniqueUniverse and the store is unchanged; after success the returned node is the only Universe |
| Discovery.GetUniverseTwice | src/main/java/io/cryostat/discovery/DiscoveryNode.java:107-111 | two calls in a row on a store with at most one Universe return the same node and leave exactly one Universe |
| Discovery.NodeStore.GetRealm | src/main/java/io/cryostat/discovery/DiscoveryNode.java:113-115 | the first child of the Universe with the name, or none; with no Universe, none, and the fresh Universe is left in the store; null children of the Universe are an error |
| Discovery.NodeStore.Equals | src/main/java/io/cryostat/discovery/DiscoveryNode.java:139-154 | reflexive; false against null and against other classes; between two nodes true exactly when their shapes (labels, target and children's shapes) are equal |
| Discovery.NodeStore.SameNodeIsSameShape | src/main/java/io/cryostat/discovery/DiscoveryNode.java:150-153 | the recursive comparison, identity shortcut included, holds exactly when the shapes are equal |
| Discovery.NodeStore.SameListIsSameShapes | src/main/java/io/cryostat/discovery/DiscoveryNode.java:153 | two children lists compare equal element by element exactly when their lists of shapes are equal |
| Discovery.NodeStore.EqualsIgnoresNameAndType | src/main/java/io/cryostat/discovery/DiscoveryNode.java:150-153 | nodes with the same target, labels and children are equal whatever their ids, names and node types |

## Left out

- The HTTP request and `RoutingContext`: the header value is a parameter, `None` when the request has no `Authorization` header. Looking up repeated headers or header names in any case belongs to Vert.x and is not modelled.
- `IdentityProviderManager.authenticate` is a call into code outside this model. The model stops at the `Forward` outcome.
- UTF-8 decoding of the payload: username and password are forwarded as byte sequences. Malformed UTF-8, which Java replaces with U+FFFD, is not modelled.
- The Mutiny `Uni` wrappers, the injection and profile annotations and the logger carry no logic. Outcomes are plain values.
- Java strings are UTF-16. The model's `char` is a Unicode scalar value, so a header holding characters outside the Basic Multilingual Plane counts positions differently. None of those characters belongs to a character class of the pattern or is a line terminator.
- ORM mechanics: lazy fetching, `orphanRemoval`, cascading, the JSON column, transactions and `persist()` are replaced by the table. Fresh ids come from a counter that stands for the id sequence.
- The `Target` entity is reduced to its connect URL, as text, and its labels. `Target.equals` becomes equality of those values.
- Discovery.NodeStore.Equals: follows the `List.equals` contract of the `ArrayList` the code builds. For a children collection loaded by Hibernate (a `PersistentBag`, which compares by identity), `equals` can answer false where the model answers true. Likewise a Hibernate proxy counts as `OtherObject`.
- Discovery.NodeStore.Equals: is modelled only for tables whose children links are acyclic, which the ghost rank of `NodeStore.Valid` records. On a cycle the Java method would not terminate.
- `hashCode` is not modelled. It mixes id, name and nodeType, which `equals` ignores, so nodes that are equal can hash differently.
- The entity listener and its lifecycle hooks are left out, because every branch of them is empty.
- Concurrency is left out. Two simultaneous `getUniverse` calls can both create a Universe, because the find and the create are separate steps. The model runs one call at a time.
- Discovery.NodeStore.GetRealm: an error on null children stands for the `NullPointerException` that `getUniverse().children.stream()` would throw. It can occur only when the table already holds a Universe record whose children are null.
