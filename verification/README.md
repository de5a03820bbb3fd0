# Verified model of the WireGuard contrib code

This project models, in Dafny 4.11, the pieces of this repository that compute
something: the Curve25519 key generators of the embeddable library and of the
key generator page, the netlink encoder, fragmenter and reader behind
`wg_set_device` and `wg_get_device`, the configuration highlighter, and the
smaller codecs and protocols beside them. Each piece is written in the form of
the original (arrays updated in place, linked lists, a character scanner, a
receive loop) and proved against a definition that does not mention it.

`dafny verify dfyconfig.toml` checks everything.

## How the files fit together

* `Bits`, `Words`, `Options`: two's-complement operators on integers, little-endian fields, `Option`.
* `Limbs`, `Rfc7748`, `Montgomery`, `Curve25519`: sums of sixteen limbs modulo p = 2^255 - 19; the X25519
  function as section 5 of RFC 7748 gives it; what it computes on the curve; and the limb code. `wireguard.c` and `wireguard.js` run the same
  statements on different numbers, so the number system (`Int64` or `Float64`) is a parameter. Every
  arithmetic result must be exact on the machine before it can be used, so overflow of an `int64_t`
  and rounding of a double are excluded by verification.
* `Netlink`, `WgDevice`, `Packing`, `SetDevice`: attributes, forests of them and their walk, a message under
  construction with its open nests, the linked lists of a device, which fragments of the peers a message
  has room for, and the resumable packing of any number of peers into bounded messages.
* `ReadDevice`, `CoalescePeers`, `RoundTrip`, `Reassembly`: the callbacks that rebuild linked lists from
  attributes, the in-place merging of fragments, and the proof that reading undoes writing.
* `Replies`, `Effects`: which attribute each field is read from, with replies encoded in any order read back;
  and what the messages of `wg_set_device` ask of their receiver.
* `ConfigText`, `Addresses`, `Validators`, `Highlighting`, `WellFormed`, `Coverage`, `Highlighter`, `Render`:
  grammars of the texts in a configuration; the validators; what highlighting means line by line; which
  texts it shows without an error; that it leaves out only blanks; the one-pass scanner; and the output loop.
* `Rendezvous`: the NAT hole punching server with its ring table, and the client against it.
* `Base64`, `Crc32`, `Zip`, `PortRanges`, `IpChecksum`: the remaining codecs.

## Main results

* For every 32-byte private key both key generators write exactly the RFC 7748 public key, without
  overflow or rounding in any of the 255 ladder steps (`Curve25519.GeneratePublicKey`). It is the x
  coordinate of the multiple of the base point that the tangents and chords of the curve
  y^2 = x^3 + 486662x^2 + x lead to, whenever the inversion inverts (`Montgomery.PublicKeyOnCurve`).
* Any forest of attributes built with put, nest_start, nest_end and nest_cancel walks back to the same
  types, payloads and nesting (`Netlink.Message.Finished`, `Netlink.BuildThenWalk`).
* `wg_set_device` terminates; every message fits the buffer; the fragments are a function of the peers and
  the buffer size, and joined in order they carry every peer and allowed IP exactly once
  (`SetDevice.SetDevice`, `Packing.FragmentsJoin`). Reading the messages and coalescing gives the peers back
  exactly when no two neighbours share a key and none of those fragments has an illegal allowed IP before
  its last (`Reassembly.ReassembledExactly`, on the lists `Reassembly.SetThenGet`).
* Fragmentation keeps the meaning: from any configuration of the receiver the messages lead to the one that
  the flags of the device and its peers ask for, as if every peer had been sent whole
  (`Effects.SetDeviceEffect`).
* Whatever attributes a reply has, every field is the last one of its number and length, and a full device
  encoded in any order is read back field by field (`Replies.PeerRead`, `Replies.MessageRead`,
  `Replies.DeviceReplyBack`).
* On the linked lists, `coalesce_peers` follows a null pointer exactly when a run of equal keys has allowed
  IPs, then an empty fragment, and then one more (`CoalescePeers.CoalesceDevice`).
* `highlight_config` emits exactly the spans of the line-by-line definition
  (`Highlighter.HighlightConfig`), which cover every character except blanks exactly once, on one line
  each (`Coverage.EachCharacterOnce`), and which depend on earlier lines only through the section
  (`Highlighting.Compositional`). The terminal shows the input unchanged (`Render.Highlight`).
* A configuration is shown without an error if and only if it is well formed: every name belongs to its
  section and every value to the grammar of its name (`WellFormed.TextExactly`).
* `is_valid_ipv6` accepts exactly the text forms of section 2.2 of RFC 4291 (`Addresses.IsValidIpv6`).
* `wg_key_from_base64` inverts `wg_key_to_base64` and accepts exactly the texts `is_valid_key` accepts
  (`Base64.KeyFromBase64`, `Base64.RoundTrip`, `Base64.CanonicalTexts`).
* The rendezvous table is a FIFO map of the last addresses, also across the wrap of its counter, and the
  client finishes once all peers have sent (`Rendezvous.Server.Receive`, `Rendezvous.LostOnlyByEviction`,
  `Rendezvous.Client.Run`).

## Where the code differs from what one might expect

* `coalesce_peers` leaves `last_peer` pointing to a freed peer and can leave `last_allowedip` null. The
  model keeps this: `CoalesceDevice` promises nothing about the last pointers, and reports a fault where
  the source follows a null pointer.
* The zero key is special to the rendezvous server, because slots never written hold it.
* `parse_peers` and `parse_allowedips` only test whether the nested walk returned 0, so that an error in
  a nested attribute ends that nest and nothing else. An illegal allowed IP stays in the list.
* The test for two dots in a row in `is_valid_hostname` comes behind the branch that takes every dot and
  is never reached: dots in a row are accepted.
* The IP validators read the byte behind their span. For IPv4 it never matters; for IPv6 it matters only
  if it is a colon (then texts of fewer than eight groups are accepted too), which no caller produces (it is always one of `/`, `%`, `]`, `,`, `#`, a blank, a
  line break or the end).
* `formatter` drops the step of a range, so `re_range` is inverted only on lists whose written ranges
  have spacing one; `PortRanges.StepIsLost` gives an input where it is not. The empty list is not read
  back either.
* The JavaScript base64 loop has the bound 32/3 and makes one turn more than the C loop.

## Model

| member | source | states |
|---|---|---|
| Curve25519.Mask16 | wireguard-tools-wsl/contrib/embeddable-wg-library/wireguard.c:1569-1577 | masking a possibly negative limb with 0xffff gives its residue modulo 65536, on int64_t words and after JavaScript's ToInt32 alike |
| Curve25519.Carry | wireguard-tools-wsl/contrib/embeddable-wg-library/wireguard.c:1569-1577 | one carry pass over limbs up to 2^62 (2^52 for doubles) is exact and gives the carried limbs, whose value is the same modulo p by Limbs.CarriedCong |
| Limbs.CarriedCong | wireguard-tools-wsl/contrib/embeddable-wg-library/wireguard.c:1569-1577 | a carry pass, which feeds the excess of the top limb back times 38, keeps the value modulo p |
| Curve25519.CSwap | wireguard-tools-wsl/contrib/embeddable-wg-library/wireguard.c:1579-1593 | the branch-free exchange swaps two limb arrays when b is 1 and keeps them when b is 0 |
| Curve25519.SubtractPrime | wireguard-tools-wsl/contrib/embeddable-wg-library/wireguard.c:1605-1612 | the borrow chain leaves t - p with a borrow bit that says whether t is below p |
| Curve25519.CarryThrice | wireguard-tools-wsl/contrib/embeddable-wg-library/wireguard.c:1600-1603 | three carries bring any limbs in range into [0, 65535] and keep the value modulo p |
| Curve25519.Pack | wireguard-tools-wsl/contrib/embeddable-wg-library/wireguard.c:1595-1618 | writes the unique 32-byte little-endian encoding in [0, p) of the value modulo p |
| Curve25519.Add | wireguard-tools-wsl/contrib/embeddable-wg-library/wireguard.c:1625-1631 | the value of the sum, with limbs that multmod accepts, even when the output aliases an input |
| Curve25519.Subtract | wireguard-tools-wsl/contrib/embeddable-wg-library/wireguard.c:1633-1639 | the value of the difference, with limbs that multmod accepts, even when the output aliases an input |
| Curve25519.Columns31 | wireguard-tools-wsl/contrib/embeddable-wg-library/wireguard.c:1644-1649 | the 31 product columns have the product as their value and stay within sixteen limb products |
| Curve25519.MultMod | wireguard-tools-wsl/contrib/embeddable-wg-library/wireguard.c:1641-1657 | the product modulo p with limbs in [-38, 65573], even when the output aliases an input |
| Curve25519.Invert | wireguard-tools-wsl/contrib/embeddable-wg-library/wireguard.c:1659-1673 | z^(p-2) modulo p with bounded limbs, by an invariant on the bits of p-2 |
| Curve25519.ClampKey | wireguard-tools-wsl/contrib/embeddable-wg-library/wireguard.c:1675-1679 | the clamped key is the scalar decodeScalar25519 of RFC 7748 gives |
| Rfc7748.ScalarShape | wireguard-tools-wsl/contrib/embeddable-wg-library/wireguard.c:1675-1679 | a clamped scalar is a multiple of 8 in [2^254, 2^255) |
| Rfc7748.ScalarBits | wireguard-tools-wsl/contrib/embeddable-wg-library/wireguard.c:1675-1679 | bit by bit: the three lowest bits and bit 255 are cleared, bit 254 is set, and all others are those of the key |
| Curve25519.ScalarBit | wireguard-tools-wsl/contrib/embeddable-wg-library/wireguard.c:1691-1691 | shifting and masking bytes of the key gives bit i of the scalar |
| Curve25519.LadderStep | wireguard-tools-wsl/contrib/embeddable-wg-library/wireguard.c:1692-1713 | swapping before and after the formulas does, modulo p, one step of the RFC ladder, which delays its swap; limb bounds are restored |
| Curve25519.LadderFormulas | wireguard-tools-wsl/contrib/embeddable-wg-library/wireguard.c:1694-1711 | the sixteen field operations between the swaps are the RFC's double-and-add formulas modulo p, with all limb bounds restored; what these compute is stated by Montgomery.DoubleAddIs |
| Curve25519.RunLadder | wireguard-tools-wsl/contrib/embeddable-wg-library/wireguard.c:1681-1714 | after all 255 steps the arrays hold the RFC ladder's x2 and z2 modulo p |
| Curve25519.Finish | wireguard-tools-wsl/contrib/embeddable-wg-library/wireguard.c:1715-1717 | the public key is the encoding of x2 * z2^(p-2) modulo p |
| Curve25519.GeneratePublicKey | wireguard-tools-wsl/contrib/embeddable-wg-library/wireguard.c:1681-1717 | for every private key the bytes written are the RFC 7748 encoding of X25519(k, 9), with int64_t words and with the doubles of wireguard.js (lines 16 to 141) alike; what X25519 computes is stated by Montgomery.X25519Multiple and Montgomery.PublicKeyOnCurve |
| Montgomery.DoubleAddIs | wireguard-tools-wsl/contrib/embeddable-wg-library/wireguard.c:1694-1711 | modulo p, (x : z) is doubled to ((x^2 - z^2)^2 : 4xz(x^2 + 486662xz + z^2)), and its sum with (y : t) at difference u is (4(xy - zt)^2 : 4u(xt - zy)^2) |
| Montgomery.LadderMultiples | wireguard-tools-wsl/contrib/embeddable-wg-library/wireguard.c:1689-1714 | after every step the ladder, its swap undone, is the textbook ladder without swaps on the bits read so far |
| Montgomery.X25519Multiple | wireguard-tools-wsl/contrib/embeddable-wg-library/wireguard.c:1689-1717 | X25519 is the quotient of the ratio that the ladder without swaps ends with |
| Montgomery.TangentX | wireguard-tools-wsl/contrib/embeddable-wg-library/wireguard.c:1694-1711 | for a point on y^2 = x^3 + 486662x^2 + x the doubling formula is the tangent construction, denominators cleared |
| Montgomery.ChordProduct | wireguard-tools-wsl/contrib/embeddable-wg-library/wireguard.c:1694-1711 | the x coordinates of sum and difference of two points, by chords, satisfy the identity that the addition formula rests on |
| Montgomery.MultiplesStand | wireguard-tools-wsl/contrib/embeddable-wg-library/wireguard.c:1689-1714 | the two ratios stand for the x coordinates of two neighbouring multiples of the base point, for any multiples formed by tangents and chords |
| Montgomery.X25519OnCurve | wireguard-tools-wsl/contrib/embeddable-wg-library/wireguard.c:1689-1717 | X25519(k, u) is the x coordinate of the k-th multiple of a point with x coordinate u, whenever z^(p-1) is 1 |
| Montgomery.PublicKeyOnCurve | wireguard-tools-wsl/contrib/embeddable-wg-library/wireguard.c:1681-1717 | so it is for the scalar of every private key and the base point with x coordinate 9 |
| Netlink.WalkEncodeAll | wireguard-tools-wsl/contrib/embeddable-wg-library/wireguard.c:315-337 | walking encoded attributes that fit their fields yields the same types and payloads in order |
| Netlink.WalkInBounds | wireguard-tools-wsl/contrib/embeddable-wg-library/wireguard.c:220-230 | on arbitrary bytes the walk visits only disjoint byte ranges inside them |
| Netlink.WireFormat | wireguard-tools-wsl/contrib/embeddable-wg-library/wireguard.c:366-380 | an attribute is its length without padding, its type, its payload and zeros up to a multiple of four |
| Netlink.Message.Put | wireguard-tools-wsl/contrib/embeddable-wg-library/wireguard.c:366-380 | appends the attribute, a leaf of the forest, to the innermost open list and changes nothing before it |
| Netlink.Message.PutCheck | wireguard-tools-wsl/contrib/embeddable-wg-library/wireguard.c:406-413 | puts the attribute exactly when the buffer has room for it and its padding |
| Netlink.Message.NestStart | wireguard-tools-wsl/contrib/embeddable-wg-library/wireguard.c:397-404 | opens an empty nest at the end of the message |
| Netlink.Message.NestStartCheck | wireguard-tools-wsl/contrib/embeddable-wg-library/wireguard.c:433-439 | opens a nest exactly when its header fits |
| Netlink.Message.NestEnd | wireguard-tools-wsl/contrib/embeddable-wg-library/wireguard.c:441-444 | turns the innermost nest into one attribute, a node of the forest, of the list around it |
| Netlink.Message.NestCancel | wireguard-tools-wsl/contrib/embeddable-wg-library/wireguard.c:446-449 | drops the innermost nest with all it holds and restores the list around it |
| Netlink.Message.Finished | wireguard-tools-wsl/contrib/embeddable-wg-library/wireguard.c:366-449 | a finished message walks back, nests included, to exactly the forest of attributes put into it, without the cancelled parts |
| Netlink.WalkForest | wireguard-tools-wsl/contrib/embeddable-wg-library/wireguard.c:315-337 | walking an encoded forest of nested attributes yields the same types, payloads and nesting |
| Netlink.Build | wireguard-tools-wsl/contrib/embeddable-wg-library/wireguard.c:366-444 | any forest is built by putting leaves and opening and closing nests, and takes exactly the room of its encoding |
| Netlink.BuildThenWalk | wireguard-tools-wsl/contrib/embeddable-wg-library/wireguard.c:315-449 | building any forest in a message and walking it gives the forest back |
| SetDevice.PutAllowedIp | wireguard-tools-wsl/contrib/embeddable-wg-library/wireguard.c:1139-1154 | one allowed IP as a nest exactly when all of it fits, else the message unchanged |
| SetDevice.PutAllowedIps | wireguard-tools-wsl/contrib/embeddable-wg-library/wireguard.c:1132-1158 | the allowed IPs from the cursor on, in list order and as many as fit, and the cursor moved behind the last one put |
| SetDevice.PutPeer | wireguard-tools-wsl/contrib/embeddable-wg-library/wireguard.c:1099-1178 | exactly the fragment that comes next for this peer, cursor and room, or nothing; one-time attributes in the first fragment only; what its bytes ask for is stated by Effects.FragFlags and Effects.FragEffect |
| Packing.CoveredStep | wireguard-tools-wsl/contrib/embeddable-wg-library/wireguard.c:1099-1178 | the fragments so far, with one more, carry everything before the new cursor exactly once in order |
| SetDevice.PutPeers | wireguard-tools-wsl/contrib/embeddable-wg-library/wireguard.c:1099-1178 | the loop over peers puts exactly the fragments that fit from its position on and ends at the position behind them |
| SetDevice.StartMessage | wireguard-tools-wsl/contrib/embeddable-wg-library/wireguard.c:1078-1094 | name, and in the first message key, port, mark and replace flag, which fit without a check |
| SetDevice.BuildMessage | wireguard-tools-wsl/contrib/embeddable-wg-library/wireguard.c:1077-1178 | one message fits the buffer and holds exactly the device attributes and the fragments that fit from its position on |
| Packing.FillProgress | wireguard-tools-wsl/contrib/embeddable-wg-library/wireguard.c:1099-1178 | wherever 124 bytes are free a message makes progress: fewer peers, the one-time attributes out, or fewer allowed IPs |
| Packing.IpsFitExactly | wireguard-tools-wsl/contrib/embeddable-wg-library/wireguard.c:1132-1158 | k allowed IPs are put if and only if their encoding fits the room |
| Packing.FillFull | wireguard-tools-wsl/contrib/embeddable-wg-library/wireguard.c:1099-1178 | a message that leaves something for the next one has fewer than 124 bytes free |
| Packing.FillCovers | wireguard-tools-wsl/contrib/embeddable-wg-library/wireguard.c:1099-1178 | a message continues the fragments before it without a gap or an overlap |
| Packing.FragmentsJoin | wireguard-tools-wsl/contrib/embeddable-wg-library/wireguard.c:1064-1196 | the fragments, a function of device attributes, peers and buffer size, join to the peer list, and every resumed one follows its peer and brings allowed IPs |
| SetDevice.SetDevice | wireguard-tools-wsl/contrib/embeddable-wg-library/wireguard.c:1064-1196 | terminates; every message fits; device attributes and the replace flag in the first message only; the fragments are exactly those of Packing.Fragments, and joined in order they are the peer list; what they ask of the receiver is stated by Effects.SetDeviceEffect |
| Effects.FragFlags | wireguard-tools-wsl/contrib/embeddable-wg-library/wireguard.c:1107-1131 | the bytes of a fragment hold a flag word exactly if the peer is to be removed, or the fragment is the first and allowed IPs are to be replaced; bit 0 asks for the one, bit 1 for the other |
| Effects.MessageFlags | wireguard-tools-wsl/contrib/embeddable-wg-library/wireguard.c:1081-1094 | a flag word with bit 0 is in the first message, exactly if peers are to be replaced, and in no other |
| Effects.FragEffect | wireguard-tools-wsl/contrib/embeddable-wg-library/wireguard.c:1099-1178 | what the bytes of a fragment ask for: all of its peer if it is the first, and more allowed IPs or again the removal if it resumes |
| Effects.JoinEffect | wireguard-tools-wsl/contrib/embeddable-wg-library/wireguard.c:1099-1178 | applying fragments one after the other is applying the peers they join to, each whole |
| Effects.ReplaceOnce | wireguard-tools-wsl/contrib/embeddable-wg-library/wireguard.c:1109-1111 | as many fragments ask for replacement of allowed IPs as there are peers that want it, and no resumed one does |
| Effects.SetDeviceReplaces | wireguard-tools-wsl/contrib/embeddable-wg-library/wireguard.c:1064-1196 | so it is over all messages of a device |
| Effects.SetDeviceEffect | wireguard-tools-wsl/contrib/embeddable-wg-library/wireguard.c:1064-1196 | from any configuration of the receiver, the messages lead to the one the flags of device and peers ask for, as if every peer had been sent whole |
| ReadDevice.ParseIp | wireguard-tools-wsl/contrib/embeddable-wg-library/wireguard.c:1198-1222 | an allowed IP filled from arbitrary attribute bytes has the value the callback defines |
| ReadDevice.ParseIps | wireguard-tools-wsl/contrib/embeddable-wg-library/wireguard.c:1224-1246 | appends one new node for every attribute up to and including the first illegal one, keeping the list well linked |
| ReadDevice.ParsePeer | wireguard-tools-wsl/contrib/embeddable-wg-library/wireguard.c:1260-1313 | a peer filled from arbitrary attribute bytes has the value the callbacks define, later attributes overriding earlier ones; field by field this is stated by Replies.PeerRead |
| ReadDevice.ParsePeers | wireguard-tools-wsl/contrib/embeddable-wg-library/wireguard.c:1315-1337 | appends one new peer per attribute until one has no public key; earlier peers and lists are untouched |
| ReadDevice.ParseMessage | wireguard-tools-wsl/contrib/embeddable-wg-library/wireguard.c:1339-1386 | a message on arbitrary bytes changes the device as the callbacks define and reports whether one failed |
| ReadDevice.ParseMessages | wireguard-tools-wsl/contrib/embeddable-wg-library/wireguard.c:1383-1386 | messages are read one after the other into one device until a callback fails |
| ReadDevice.ParseDeviceAttr | wireguard-tools-wsl/contrib/embeddable-wg-library/wireguard.c:1339-1381 | one device attribute: peers go to the list, everything else to the device, attributes of a wrong size are ignored |
| Replies.IpsAccepted | wireguard-tools-wsl/contrib/embeddable-wg-library/wireguard.c:1224-1246 | a list of allowed IPs is accepted if and only if each is IPv4 with a prefix up to 32 or IPv6 up to 128, and then all are there in order |
| Replies.PeerRead | wireguard-tools-wsl/contrib/embeddable-wg-library/wireguard.c:1260-1313 | for any attributes: public key, preshared key, keepalive, last handshake, received and sent bytes are those of the last attribute of their number and length, or unchanged |
| Replies.EndpointRead | wireguard-tools-wsl/contrib/embeddable-wg-library/wireguard.c:1281-1293 | an endpoint of either family replaces the bytes of its socket address and no others |
| Replies.PeerStops | wireguard-tools-wsl/contrib/embeddable-wg-library/wireguard.c:1309-1312 | behind the first list with an illegal allowed IP nothing of a peer is read |
| Replies.PeerReplyBack | wireguard-tools-wsl/contrib/embeddable-wg-library/wireguard.c:58-71 | a full peer encoded with these attribute numbers, in any order, is read back field by field |
| Replies.PeersAccepted | wireguard-tools-wsl/contrib/embeddable-wg-library/wireguard.c:1315-1337 | a list of peers is accepted if and only if each has a public key, and then all are there in order |
| Replies.MessageRead | wireguard-tools-wsl/contrib/embeddable-wg-library/wireguard.c:1339-1381 | for any attributes: interface index, name, keys, port and mark are those of the last attribute of their number and length, or unchanged, and all peers are added |
| Replies.MessageStops | wireguard-tools-wsl/contrib/embeddable-wg-library/wireguard.c:1377-1378 | behind the first list with a peer without public key nothing is read and the message fails |
| Replies.MessagesAsOne | wireguard-tools-wsl/contrib/embeddable-wg-library/wireguard.c:1383-1386 | how attributes are divided among messages makes no difference |
| Replies.DeviceReplyBack | wireguard-tools-wsl/contrib/embeddable-wg-library/wireguard.c:41-79 | a full device with its peers, encoded with these attribute numbers in any order, is read back field by field |
| Replies.GetReply | wireguard-tools-wsl/contrib/embeddable-wg-library/wireguard.c:1410-1440 | on the linked lists: the reading half of wg_get_device rebuilds such a device and its peers |
| CoalescePeers.AbsorbIps | wireguard-tools-wsl/contrib/embeddable-wg-library/wireguard.c:1397-1403 | the list of the next peer is appended in place and its last pointer taken over, null if it was empty; a null last pointer of a nonempty list is a fault |
| CoalescePeers.MergeNext | wireguard-tools-wsl/contrib/embeddable-wg-library/wireguard.c:1397-1406 | one merge: a fault exactly if the last pointer is lost, else the next peer leaves the chain, its allowed IPs are taken over, no other peer changes |
| CoalescePeers.Turn | wireguard-tools-wsl/contrib/embeddable-wg-library/wireguard.c:1392-1407 | each turn moves on, merges or faults, and a fault happens only on an unsafe list |
| CoalescePeers.CoalesceDevice | wireguard-tools-wsl/contrib/embeddable-wg-library/wireguard.c:1388-1408 | on the linked lists: follows a null pointer if and only if some run of equal keys has allowed IPs, an empty fragment and then one more; otherwise every run is merged into its first peer |
| CoalescePeers.SafeExactly | wireguard-tools-wsl/contrib/embeddable-wg-library/wireguard.c:1397-1403 | the recursion that follows the last pointer through the merges is safe if and only if there is no such run |
| CoalescePeers.FaultyRun | wireguard-tools-wsl/contrib/embeddable-wg-library/wireguard.c:1397-1403 | an input on which coalescing faults: one key with allowed IPs, then empty, then once more |
| RoundTrip.IpsBack | wireguard-tools-wsl/contrib/embeddable-wg-library/wireguard.c:1198-1246 | the reader gets the sent allowed IPs in order up to the first illegal one, and fails exactly if there is one |
| RoundTrip.IpBack | wireguard-tools-wsl/contrib/embeddable-wg-library/wireguard.c:1139-1222 | reading the bytes of one allowed IP gives its family, address and prefix length |
| RoundTrip.FragBack | wireguard-tools-wsl/contrib/embeddable-wg-library/wireguard.c:1260-1313 | reading the bytes of a fragment gives its key, its one-time attributes if it is a first one, and its allowed IPs |
| RoundTrip.DeviceBack | wireguard-tools-wsl/contrib/embeddable-wg-library/wireguard.c:1079-1094 | reading the device attributes gives name, key, port and mark, from the first message and unchanged by later ones |
| RoundTrip.MessagesBack | wireguard-tools-wsl/contrib/embeddable-wg-library/wireguard.c:1339-1386 | reading all messages gives the device attributes and one peer per fragment, in order |
| Reassembly.CoalesceSnoc | wireguard-tools-wsl/contrib/embeddable-wg-library/wireguard.c:1388-1408 | merging from the left, as the loop does, equals merging each peer into the list before it |
| Reassembly.CoalescedDiffer | wireguard-tools-wsl/contrib/embeddable-wg-library/wireguard.c:1388-1408 | after coalescing no two neighbours have the same key |
| Reassembly.CoalesceCount | wireguard-tools-wsl/contrib/embeddable-wg-library/wireguard.c:1388-1408 | coalescing neither loses nor duplicates an allowed IP |
| Reassembly.Reassembled | wireguard-tools-wsl/contrib/embeddable-wg-library/wireguard.c:1388-1408 | coalescing undoes the fragmentation when neighbouring keys differ and addresses are legal |
| Reassembly.ReassembledExactly | wireguard-tools-wsl/contrib/embeddable-wg-library/wireguard.c:1198-1408 | for any fragments: coalescing what was read equals the joined peers if and only if neighbours have different keys and no fragment has an illegal allowed IP before its last |
| Reassembly.GetDevice | wireguard-tools-wsl/contrib/embeddable-wg-library/wireguard.c:1410-1440 | on any messages: whether a callback rejected them, whether coalescing faulted, and else the device read and coalesced; field by field this is stated by Replies.MessageRead and Replies.GetReply |
| Reassembly.SetThenGet | wireguard-tools-wsl/contrib/embeddable-wg-library/wireguard.c:1064-1408 | on the linked lists: reading what wg_set_device sent gives the device back, and its peers if and only if no fragment of Packing.Fragments for these peers and this buffer has an illegal allowed IP before its last |
| Reassembly.IllegalFirstLost | wireguard-tools-wsl/contrib/embeddable-wg-library/wireguard.c:1224-1246 | an input that is not read back: a peer with two allowed IPs of which the first is illegal |
| ConfigText.CaseIgnored | wireguard-tools-wsl/contrib/highlighter/highlighter.c:23-31 | testing c with bit 5 set is testing for a letter of either case |
| Addresses.IsValidIpv4 | wireguard-tools-wsl/contrib/highlighter/highlighter.c:124-140 | accepts exactly four octets without leading zeros and dots between them, whatever byte follows |
| Addresses.IsValidIpv6 | wireguard-tools-wsl/contrib/highlighter/highlighter.c:142-178 | accepts exactly the RFC 4291 text forms, and where a colon follows the span exactly the texts of fewer than eight groups besides |
| Addresses.IPv6Forms | wireguard-tools-wsl/contrib/highlighter/highlighter.c:142-178 | the grammar is eight groups, the last two possibly a dotted quad, or fewer around one gap at any position |
| Addresses.LeftAtGroup | wireguard-tools-wsl/contrib/highlighter/highlighter.c:163-175 | at each group the loop's tests decide exactly whether the rest completes an address |
| Addresses.GroupRead | wireguard-tools-wsl/contrib/highlighter/highlighter.c:163-175 | reading a group and its colon leaves exactly the grammar of the rest of an address |
| Validators.IsValidKey | wireguard-tools-wsl/contrib/highlighter/highlighter.c:60-92 | accepts exactly 43 base64 characters, the last with two zero bits, and one padding character |
| Validators.IsValidHostname | wireguard-tools-wsl/contrib/highlighter/highlighter.c:94-122 | accepts exactly 1 to 63 letters, digits, hyphens and dots with letters or digits at the ends that are not all digits and dots |
| Validators.IsValidUint | wireguard-tools-wsl/contrib/highlighter/highlighter.c:180-205 | accepts exactly the numbers of at most ten characters between the bounds, in decimal or where allowed in hexadecimal, never overflowing 64 bits |
| Validators.IsValidScope | wireguard-tools-wsl/contrib/highlighter/highlighter.c:259-270 | accepts exactly 1 to 64 characters of a scope |
| Validators.IsValidEndpoint | wireguard-tools-wsl/contrib/highlighter/highlighter.c:272-313 | accepts exactly a bracketed IPv6 address with optional scope, or a host, followed by a colon and a port |
| Validators.IsValidNetwork | wireguard-tools-wsl/contrib/highlighter/highlighter.c:315-338 | accepts exactly an address with an optional prefix length that fits its family, and where a colon follows exactly what is_valid_ipv6 accepts there besides |
| Highlighter.SpanArray.Append | wireguard-tools-wsl/contrib/highlighter/highlighter.c:425-443 | appends one span unless it is empty |
| Highlighter.HighlightPiece | wireguard-tools-wsl/contrib/highlighter/highlighter.c:445-480 | one value of a list is shown as address, host, or address, slash and prefix length, or as an error |
| Highlighter.HighlightList | wireguard-tools-wsl/contrib/highlighter/highlighter.c:482-508 | the single pass emits the trimmed values between commas and the commas; a comma that nothing follows is an error |
| Highlighter.HighlightEndpoint | wireguard-tools-wsl/contrib/highlighter/highlighter.c:548-563 | an endpoint is shown as host, last colon and port, and the colon always exists |
| Highlighter.IsValidValue | wireguard-tools-wsl/contrib/highlighter/highlighter.c:512-547 | every single-valued field is shown by its kind exactly if its grammar accepts the value |
| Highlighter.HighlightValue | wireguard-tools-wsl/contrib/highlighter/highlighter.c:510-572 | the spans of a trimmed value are those its field calls for |
| Highlighter.Flush | wireguard-tools-wsl/contrib/highlighter/highlighter.c:585-602 | at the end of a line or before a comment, what was emitted for the line is what its definition gives, and the section is the one it sets |
| Highlighter.ScanChar | wireguard-tools-wsl/contrib/highlighter/highlighter.c:614-636 | a character that ends nothing keeps the relation between the scanner's variables and the line read so far |
| Highlighter.EndKey | wireguard-tools-wsl/contrib/highlighter/highlighter.c:621-631 | a key is shown as a field exactly if it belongs to the current section, which is by name in WellFormed.KeyNames |
| Highlighter.HighlightConfig | wireguard-tools-wsl/contrib/highlighter/highlighter.c:574-641 | the one-pass scanner emits the spans of the line-by-line definition and one end mark; which texts are shown without an error is stated by WellFormed.TextExactly |
| Highlighting.Compositional | wireguard-tools-wsl/contrib/highlighter/highlighter.c:583-637 | the spans of a text, a line break and another text are those of the first, then those of the second in the section the first leaves |
| Highlighting.SpansShift | wireguard-tools-wsl/contrib/highlighter/highlighter.c:583-637 | moving a text moves its spans and changes nothing else |
| WellFormed.CaselessLetters | wireguard-tools-wsl/contrib/highlighter/highlighter.c:42-58 | two names are the same if they have equal length and differ in the case of letters at most |
| WellFormed.FieldNames | wireguard-tools-wsl/contrib/highlighter/highlighter.c:373-397 | each of the seventeen names, in any case, has its own field, and nothing else has |
| WellFormed.KeyNames | wireguard-tools-wsl/contrib/highlighter/highlighter.c:364-371 | a key is shown as a field in [Peer] exactly for its five names, in [Interface] exactly for its twelve, and nowhere else |
| WellFormed.KindsByName | wireguard-tools-wsl/contrib/highlighter/highlighter.c:512-547 | a good value is shown in the kind that belongs to its name |
| WellFormed.HeaderShown | wireguard-tools-wsl/contrib/highlighter/highlighter.c:399-406 | [Interface] and [Peer] in any case are shown as sections and open them; any other bracket is an error and closes the section |
| WellFormed.PairShown | wireguard-tools-wsl/contrib/highlighter/highlighter.c:588-631 | a good pair is shown as field, delimiter and value |
| WellFormed.CommentShown | wireguard-tools-wsl/contrib/highlighter/highlighter.c:585-607 | a comment is shown as one, from the first # to the end of the line |
| WellFormed.EndpointShown | wireguard-tools-wsl/contrib/highlighter/highlighter.c:548-563 | an endpoint is shown as host, delimiter and port |
| WellFormed.NetworkShown | wireguard-tools-wsl/contrib/highlighter/highlighter.c:445-480 | a network is shown as address, delimiter and prefix length |
| WellFormed.AddressShown | wireguard-tools-wsl/contrib/highlighter/highlighter.c:445-480 | a bare address and a name server are shown as address or host |
| WellFormed.CommaShown | wireguard-tools-wsl/contrib/highlighter/highlighter.c:482-508 | a comma between two values is shown as a delimiter |
| WellFormed.ListExactly | wireguard-tools-wsl/contrib/highlighter/highlighter.c:482-508 | a list is shown without error if and only if every value is missing or good and the last one is there |
| WellFormed.TextExactly | wireguard-tools-wsl/contrib/highlighter/highlighter.c:574-641 | a text is shown without any error if and only if every line is blank, a header, or a name of the open section with a value of its grammar |
| Coverage.TextMarks | wireguard-tools-wsl/contrib/highlighter/highlighter.c:574-641 | going through the spans in order, only blanks and line breaks lie between them |
| Coverage.EachCharacterOnce | wireguard-tools-wsl/contrib/highlighter/highlighter.c:574-641 | spans are nonempty, in bounds, increasing and disjoint, and every character but blanks and line breaks is in exactly one |
| Render.ShowSpan | wireguard-tools-wsl/contrib/highlighter/highlight.c:73-77 | the text between spans has no negative length, and the span appears in its colour |
| Render.Highlight | wireguard-tools-wsl/contrib/highlighter/highlight.c:67-79 | the terminal shows every character of the input once and in order, each in the colour of the span it is in |
| Rendezvous.Server.FindEntry | wireguard-tools-wsl/contrib/nat-hole-punching/nat-punch-server.c:31-39 | finds a slot exactly when the key is among the 65536 put in last, or is zero and a slot was never written, and the slot holds the address known for the key |
| Rendezvous.Server.FindOrInsert | wireguard-tools-wsl/contrib/nat-hole-punching/nat-punch-server.c:42-50 | a key that is not found takes the slot of the oldest, in turn, also when the counter wraps; the zero key takes an unwritten slot without advancing the counter |
| Rendezvous.Server.Receive | wireguard-tools-wsl/contrib/nat-hole-punching/nat-punch-server.c:88-111 | in every run the reply is the address the other key was last heard from, or empty if it is not in the table; for the zero key the address in the first slot never written |
| Rendezvous.OneSlot | wireguard-tools-wsl/contrib/nat-hole-punching/nat-punch-server.c:42-50 | no key is in two written slots |
| Rendezvous.LiveDistinct | wireguard-tools-wsl/contrib/nat-hole-punching/nat-punch-server.c:42-50 | the 65536 keys put in last are all different |
| Rendezvous.LostOnlyByEviction | wireguard-tools-wsl/contrib/nat-hole-punching/nat-punch-server.c:42-50 | a key is lost only after 65536 later insertions, and the table then holds 65536 other, different keys |
| Rendezvous.HeardIsKnown | wireguard-tools-wsl/contrib/nat-hole-punching/nat-punch-server.c:94-96 | right after a packet its sender is known at the address it came from |
| Rendezvous.SendersKnown | wireguard-tools-wsl/contrib/nat-hole-punching/nat-punch-server.c:42-50 | while at most 65536 keys were put in, the table holds exactly the nonzero keys that have sent |
| Rendezvous.Client.Ask | wireguard-tools-wsl/contrib/nat-hole-punching/nat-punch-client.c:177-199 | a peer is marked seen exactly when the server knows it, with an address that it sent from |
| Rendezvous.Client.Pass | wireguard-tools-wsl/contrib/nat-hole-punching/nat-punch-client.c:174-204 | whatever others send meanwhile, a pass repeats exactly if a peer is unseen, and not at all once all peers have sent and nothing was evicted |
| Rendezvous.Client.Run | wireguard-tools-wsl/contrib/nat-hole-punching/nat-punch-client.c:174-204 | over all passes a peer is seen only with an address it sent from; the client finishes only when all are seen, and at the latest with the first pass that begins when all peers have sent, unless a key was evicted |
| Base64.EncodeQuad | wireguard-tools-wsl/contrib/embeddable-wg-library/wireguard.c:1493-1505 | the branch-free code gives the four characters of RFC 4648 for three bytes |
| Base64.EncodeChar | wireguard-tools-wsl/contrib/embeddable-wg-library/wireguard.c:1498-1503 | the sum of sign masks is the character of the RFC 4648 alphabet |
| Base64.KeyToBase64 | wireguard-tools-wsl/contrib/embeddable-wg-library/wireguard.c:1507-1516 | writes the RFC 4648 encoding of the key and a NUL |
| Base64.KeyToBase64Js | wireguard-tools-wsl/contrib/keygen-html/wireguard.js:165-172 | gives the same text, although its loop bound is not whole and its last call writes outside the array |
| Base64.DecodeQuad | wireguard-tools-wsl/contrib/embeddable-wg-library/wireguard.c:1518-1532 | negative exactly if a character is not of the alphabet, else the 24-bit number |
| Base64.TermIs | wireguard-tools-wsl/contrib/embeddable-wg-library/wireguard.c:1523-1530 | for every signed char the sum of masks is its index in the alphabet, or -1 |
| Base64.KeyFromBase64 | wireguard-tools-wsl/contrib/embeddable-wg-library/wireguard.c:1534-1559 | succeeds exactly on the texts is_valid_key accepts, and then the key encodes to the text |
| Base64.RoundTrip | wireguard-tools-wsl/contrib/embeddable-wg-library/wireguard.c:1507-1559 | decoding what was encoded gives the key back, for every key |
| Base64.EncodedInjective | wireguard-tools-wsl/contrib/embeddable-wg-library/wireguard.c:1507-1516 | different keys have different texts |
| Base64.CanonicalTexts | wireguard-tools-wsl/contrib/highlighter/highlighter.c:60-92 | the texts is_valid_key accepts are exactly the encodings of 32-byte keys |
| Crc32.ByteStep | wireguard-tools-wsl/contrib/keygen-html/keygen.html:95-96 | eight steps of the shift register are one table lookup, because the steps are linear |
| Crc32.ShiftsLinear | wireguard-tools-wsl/contrib/keygen-html/keygen.html:89-90 | any number of register steps distributes over exclusive or |
| Crc32.Checksum.Crc32 | wireguard-tools-wsl/contrib/keygen-html/keygen.html:84-98 | the table-driven loop, with its table filled on first use, gives the bit-by-bit CRC-32 |
| Crc32.Polynomial | wireguard-tools-wsl/contrib/keygen-html/keygen.html:90-90 | the register steps by the polynomial with exponents 32, 26, 23, 22, 16, 12, 11, 10, 8, 7, 5, 4, 2, 1 and 0 |
| Crc32.CheckValue | wireguard-tools-wsl/contrib/keygen-html/keygen.html:84-98 | the digits 1 to 9 have the known check value 0xcbf43926 |
| Zip.CreateZipFile | wireguard-tools-wsl/contrib/keygen-html/keygen.html:100-156 | the archive is the local files, the directory with the offset of each, and the end record; that these are good records is stated by Zip.ReadArchive |
| Zip.PutFile | wireguard-tools-wsl/contrib/keygen-html/keygen.html:107-142 | one file adds its local header and contents to the archive and its entry to the directory |
| Zip.ReadArchive | wireguard-tools-wsl/contrib/keygen-html/keygen.html:100-156 | a reader that checks signatures, flags, method, both sizes, disks and counts in all three kinds of record, as APPNOTE lays them out, recovers all names, contents and CRCs in order as stored files of version 2.0, when sizes and counts fit their fields |
| PortRanges.StringRangeToList | Shell/PortExclusionConverter.py:4-14 | the loop over the parts gives the numbers and ranges of the definition, blanks, plus signs and underscores as Python's int takes them, or an error |
| PortRanges.IntBlanks | Shell/PortExclusionConverter.py:4-14 | blanks on either side of a number make no difference |
| PortRanges.IntSigned | Shell/PortExclusionConverter.py:4-14 | a plus sign before the digits makes no difference |
| PortRanges.IntGrouped | Shell/PortExclusionConverter.py:4-14 | an underscore between digits makes no difference |
| PortRanges.ReRange | Shell/PortExclusionConverter.py:56-61 | terminates because each turn leaves a shorter list, and gives the joined texts |
| PortRanges.RoundTrip | Shell/PortExclusionConverter.py:4-61 | reading the written text gives the list back when every written range has spacing one |
| PortRanges.TriplesStepsOne | Shell/PortExclusionConverter.py:41-54 | that holds for every list in which three consecutive equally spaced numbers have spacing one |
| PortRanges.RoundTripExactly | Shell/PortExclusionConverter.py:4-61 | an increasing list is read back if and only if it is nonempty and every written range has spacing one |
| PortRanges.EmptyFails | Shell/PortExclusionConverter.py:56-61 | the text of the empty list is not read back |
| PortRanges.StepIsLost | Shell/PortExclusionConverter.py:36-39 | the list 2, 4, 6 is read back as 2, 3, 4, 5, 6 |
| IpChecksum.IpChecksum | wireguard-tools-wsl/contrib/external-tests/go/main.go:19-35 | for every buffer: the complement of the folded sum modulo 2^32 |
| IpChecksum.WrapExactly | wireguard-tools-wsl/contrib/external-tests/go/main.go:19-35 | that is the RFC 1071 checksum if and only if the number of times the 32-bit sum wraps is a multiple of 65535 |
| IpChecksum.TooLong | wireguard-tools-wsl/contrib/external-tests/go/main.go:19-35 | an input on which it is not: 65538 words of ones |
| IpChecksum.FoldSum | wireguard-tools-wsl/contrib/external-tests/go/main.go:27-29 | adding the halves until 16 bits are left gives the one's-complement sum |
| IpChecksum.ChecksumChecks | wireguard-tools-wsl/contrib/external-tests/go/main.go:19-35 | storing the checksum in its zeroed field at an even offset makes the one's-complement sum all ones |
| IpChecksum.NeutralBlock | wireguard-tools-wsl/contrib/external-tests/go/main.go:130-131 | a block whose words add up to a multiple of 65535 does not change the checksum |
| IpChecksum.PacketChecksum | wireguard-tools-wsl/contrib/external-tests/go/main.go:130-131 | summing the header together with a message that holds its own checksum gives the checksum of the header |

## Left out

- Sockets, acknowledgements, error numbers, EINTR retries and the generic netlink family lookup: only runs in which sending and receiving succeed are modelled.
- The kernel is not part of the repository: `Effects` gives the flags of a message the meaning of their names, and `Replies` takes the contents of a reply from the attributes the reader knows.
- Allocation failures, freeing of memory and the growth of the span array by reallocation.
- memzero_explicit, volatile accesses and timing; random key generation.
- That tangents and chords make a group, and the primality of p: multiples of a point are related step by step, and z^(p-1) = 1 is a hypothesis.
- Montgomery.X25519OnCurve: states nothing where a multiple on the way is the point at infinity or two neighbouring ones have the same x coordinate.
- Effects.SetDeviceEffect: needs a buffer below 65536 bytes, like Reassembly.SetThenGet.
- Replies.DeviceReplyBack: needs messages below 65536 bytes, since lengths have 16 bits.
- The netlink route messages that list interfaces.
- Hosts that are not little-endian; fields of the message header other than its length; reading past an interface name that lacks its NUL.
- UTF-8 encoding of names and contents in the ZIP writer, which takes bytes; searching for an end record behind a comment, since the writer leaves none.
- PortRanges.StringRangeToList: digits and blanks outside ASCII, which Python's int also takes, count as errors.
- The Noise handshakes of the external tests, the kernel key extractors, the sticky socket test, and all scripts, settings and user interfaces of the repository: they rest on libraries or system calls that are not part of it, or compute nothing.
- SetDevice.SetDevice: needs a buffer of at least 228 bytes; the source uses the smaller of the page size and 8192.
- Reassembly.SetThenGet: needs a buffer below 65536 bytes, so that nest lengths fit their 16-bit fields.
- Rendezvous.Client.Pass: the network delivers each reply once and in order, and no peer has the zero key.
- Zip.ReadArchive: states nothing for archives whose sizes or counts do not fit their fields.
