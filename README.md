# Network simulator core: codec, interfaces, hosts and router

A Dafny model of `networkQ2.py`, a teaching simulation of a packet-switched network:

- **Interfaces** are FIFO queues of wire strings. A positive `maxsize` bounds the queue; `maxsize <= 0` leaves it unbounded.
- **Hosts** cut messages into packets that fit the output interface's MTU and reassemble received fragments until a packet with end flag 1 arrives.
- **Routers** move at most one packet per input interface per call of `forward`.

The modules follow the classes of the program:

- `Codec` (`codec.dfy`) — `NetworkPacket` and its wire format:
  - `ToByteS` models `to_byte_S`: zero-filled address, one flag character, then the payload. Its rows are `EncodeLayout` and `RoundTrip`;
  - `FromByteS` models `from_byte_S` on strings whose six header characters are ASCII digits;
  - `str`, `zfill` and `int` written out on decimal digit strings.
- `Interfaces` (`interface.dfy`) — class `Interface`.
  - The queue is a `seq<string>` field.
  - `maxsize` is a constant.
  - The optional `mtu` is an `Option<int>` field.
  - Pure functions `Offer` and `OfferAll` describe a put and a run of puts.
- `Hosts` (`host.dfy`) — class `Host`, with the reassembly buffer `wholePacket` as a field.
  - Segmentation has a reference definition (`Segment`) and a loop method proved against it (`SegmentLoop`).
  - Reassembly is specified as a fold (`Deliver`) over received wire strings.
- `Routers` (`router.dfy`) — class `Router`, which holds sequences of `Interface` references.
  - One call of `forward` is specified on values. `Port` is the contents, bounds and MTUs of input `i` and output `i`.
  - `TickPorts` and `TickEvents` give the new state and the events reported.
- `Wrappers` (`wrappers.dfy`) — `Option`.

Notes on the code:

- **Two header sizes.** `udt_send` reserves `nonData = 8` characters per packet (networkQ2.py:96), but the header is only 6 characters long. So every packet carries at most `mtu - 8` payload characters, and, for `0 <= dst_addr < 100000`, its wire string is at most `mtu - 2` long (`Hosts.SegmentWireLength`). zfill never truncates, so a longer address field makes the wire string longer. The model follows the code's 8.
- **When `udt_send` terminates.** The loop ends only when `mtu > 8`, or when `mtu == 8` and the data is empty (`Hosts.SendTerminates`). For `mtu < 8` the guard `len(data_S) + 8 > mtu` holds for every string, so the loop never exits (networkQ2.py:102). For `mtu == 8` with non-empty data each piece is empty and nothing is cut. This condition is `UdtSend`'s precondition, together with an mtu that is set.
- **Addresses of more than five digits.** zfill never truncates, so for `dst_addr >= 100000` the address takes more than five characters and `udt_receive` reads one of its digits as the flag (networkQ2.py:57, 131-134). Packets to such an address are misparsed: `"ABC"` sent to 100000 with `mtu - 8 == 2` is received as two flag-0 fragments and never completes (`Hosts.WideAddressMisparsed`). The reassembly lemmas are stated for `0 <= dst_addr < 100000`.
- **What `forward` puts on the output.** It puts the re-encoding of the decoded entry. For a well-formed entry this equals the entry itself (`Codec.ReencodeIdentity`). So the tick specification moves wire strings unchanged, and `Routers.ForwardOne` discharges the decoding step with that lemma.

## Model

| member | source | states |
|---|---|---|
| Codec.EncodeLayout | networkQ2.py:56-61 | An encodable packet (`0 <= addr < 100000`, flag one digit) encodes to 6 + len(data) characters: five digits that read back as the address, the flag's digit, then the payload unchanged |
| Codec.AddressField | networkQ2.py:57 | `str(addr).zfill(5)` for `0 <= addr < 100000` is five decimal digits whose value is the address |
| Codec.FromByteS | networkQ2.py:66-71 | Decoding a well-formed string gives an address in `0 … 99999`, a one-digit flag and a payload of len(b) - 6 characters |
| Codec.RoundTrip | networkQ2.py:56-71 | The digits-only decoder accepts `to_byte_S(p)` and gives `p` back exactly when `0 <= addr < 100000` and the flag is one digit, in both directions |
| Codec.ReencodeIdentity | networkQ2.py:56-71 | Re-encoding the decoding of a well-formed string gives back the same string, leading zeros included |
| Codec.PaddedRepr | networkQ2.py:57-67 | Printing and zero-filling the value of a digit string to its own width gives back that digit string |
| Codec.StrToNatOfNatToStr | networkQ2.py:57-67 | `int(str(n)) == n` for every natural number |
| Interfaces.Interface.constructor | networkQ2.py:14-17 | A new interface has an empty queue, the given maxsize and no MTU |
| Interfaces.Interface.Get | networkQ2.py:20-24 | On an empty queue: returns None and changes nothing. Otherwise: returns the oldest entry and removes only it. The MTU and the bound are untouched |
| Interfaces.Interface.Put | networkQ2.py:29-30 | Accepted exactly when the queue is not at a positive maxsize, and then appended at the tail. When refused (where `queue.Full` is raised) nothing changes. The bound is kept |
| Interfaces.OfferAllFillsToCapacity | networkQ2.py:29-30 | A run of puts appends the longest prefix of the entries that fits and refuses exactly the rest. An unbounded queue accepts everything |
| Hosts.Host.constructor | networkQ2.py:81-85 | A new host has two distinct fresh unbounded interfaces without MTU, and an empty reassembly buffer |
| Hosts.SegmentLoop | networkQ2.py:96-114 | The segmentation loop produces exactly the reference segmentation `Segment(dst, data, mtu - 8)` |
| Hosts.SegmentReassembles | networkQ2.py:102-114 | Concatenating the payloads of the segments, in order, gives back the message |
| Hosts.SegmentShape | networkQ2.py:96-114 | At least one packet, all addressed to `dst_addr`. All but the last carry exactly `mtu - 8` characters with flag 0. The last carries at most `mtu - 8` with flag 1 and is empty only for an empty message |
| Hosts.SegmentWireLength | networkQ2.py:105-118 | For `0 <= dst_addr < 100000`, every wire string is 6 + its payload long, hence at most `mtu - 2` |
| Hosts.Host.Transmit | networkQ2.py:116-118 | Each packet's wire string is appended to the unbounded output queue, in order. Nothing else changes |
| Hosts.Host.UdtSend | networkQ2.py:94-118 | The output queue grows by the wire strings of `Segment(dst, data, mtu - 8)`, in order. The MTU is unchanged |
| Hosts.Host.UdtReceive | networkQ2.py:122-138 | Empty input: nothing changes and no message is returned. Otherwise the oldest entry is removed and its payload appended to `wholePacket`. On flag '1' the completed buffer is returned and `wholePacket` becomes "". The output interface is untouched |
| Hosts.SegmentWiresReceivable | networkQ2.py:114-134 | Every wire string `udt_send` emits for `0 <= dst_addr < 100000` is one `udt_receive` can parse |
| Hosts.EncodedWire | networkQ2.py:118-134 | The i-th wire string of encodable packets is header plus payload long and has a digit flag |
| Hosts.ReceiveEncoded | networkQ2.py:128-138 | Receiving the wire string of an encodable packet appends its payload to the buffer. It completes the message exactly when the packet's flag is 1 |
| Hosts.DeliverOneMessage | networkQ2.py:122-138 | For encodable packets (`0 <= dst_addr < 100000`, one-digit flag) flagged 0 … 0 1: receiving their wire strings in order completes exactly one message, the buffer followed by all payloads, and leaves the buffer empty |
| Hosts.SegmentThenDeliver | networkQ2.py:94-138 | For `0 <= dst_addr < 100000`: receiving, in order, the wire strings `udt_send` enqueues completes exactly one message equal to the original, and leaves the buffer empty |
| Hosts.WideAddressMisparsed | networkQ2.py:57-134 | `"ABC"` sent to address 100000 two characters per packet gives two wire strings whose flag position holds the address digit 0, and receiving them completes no message |
| Hosts.DeliverAppend | networkQ2.py:122-138 | Receiving two runs of wire strings one after the other delivers the messages of the first run, then those of the second, in order |
| Hosts.TwoMessagesInOrder | networkQ2.py:94-138 | For `0 <= dst_addr < 100000`: two messages sent back to back are completed separately, in the order sent |
| Routers.Router.constructor | networkQ2.py:161-166 | `intf_count` inputs and `intf_count` outputs (none for a negative count), all distinct, fresh, empty, bounded by `max_queue_size`, MTU unset |
| Routers.NewInterfaces | networkQ2.py:165-166 | The list comprehension yields `n` distinct fresh empty interfaces with the given bound |
| Routers.Router.Forward | networkQ2.py:174-191 | Given well-formed heads and a set MTU on every output that will accept an entry: all queues afterwards are the tick of the queues before (`TickPorts`), the events are those of the tick (`TickEvents`), and every queue stays within its bound. Every interface's MTU is unchanged |
| Routers.Router.ForwardPort | networkQ2.py:175-191 | Iteration i of the loop advances the router's state from ports 0 … i-1 handled to ports 0 … i handled, and reports port i's event |
| Routers.ForwardOne | networkQ2.py:176-191 | One get on input i and, for an entry, one put of its re-encoding on output i. The pair ends in `StepPort` of its old state. Loss is reported exactly when the output was full |
| Routers.StepPortMeaning | networkQ2.py:179-191 | A port's step removes the oldest input entry, appends it to the output when there is room and drops it otherwise. An empty input changes nothing and reports nothing. A loss is reported exactly when the output was full. Bounds and MTUs are kept |
| Routers.IdleTick | networkQ2.py:175-181 | With every input empty, a tick changes no queue and reports nothing |
| Routers.TickKeepsBounds | networkQ2.py:174-191 | A tick keeps every queue within its bound, and keeps the bounds themselves |
| Routers.TickConservesPackets | networkQ2.py:174-191 | After a tick the queues hold as many entries as before, less one per reported loss |
| Routers.TickConservesContents | networkQ2.py:174-191 | No wire string is created, duplicated or altered: the multiset of entries in the queues after a tick, plus the entries reported lost, is the multiset of entries before |
| Routers.LostAreDropped | networkQ2.py:186-190 | The Lost events carry exactly the entries dropped by full outputs, in port order |
| Routers.LossReportedIff | networkQ2.py:186-191 | A loss is reported for interface i exactly when input i had an entry and output i was full |

## Left out

- The `run` thread loops and `stop` flags (networkQ2.py:143-151, 194-200): thread lifecycle and cooperative cancellation.
- `queue.Queue`'s locking: the model is sequential.
- Blocking `put(..., True)` in `forward` (networkQ2.py:186). The model does not wait for room. It drops the entry and reports a `Lost` event. That is the path the `except queue.Full` handler describes.
- `print` logging and `__str__` (networkQ2.py:52-53, 88-89, 117, 135, 187-190): output formatting. The completed message is returned by `UdtReceive`, and forwarding and loss events are returned by `Forward`.
- The `Forwarded` event omits the output MTU that the log line prints (networkQ2.py:187-188). The `%d` in that line raises `TypeError` for an MTU that was never set, so `Forward` requires a set MTU on every output whose port will forward an entry (`MtusSetWhereForwarded`).
- The forwarding-table lookup (networkQ2.py:183-185): not implemented in the source, so the identity mapping is kept.
- The MTU left as `None` and `udt_send` with an MTU below 8: these raise `TypeError` or loop forever. `UdtSend` requires an MTU that is set and a termination condition.
- Malformed strings making `int()` fail with `ValueError` (networkQ2.py:67-68, 134), and an entry shorter than 6 characters making `pkt_S[5]` fail with `IndexError` (networkQ2.py:134). Nothing catches either, so:
  - `Forward` requires well-formed heads (`HeadsWellFormed`);
  - `UdtReceive` requires a receivable head.
- The range of strings `int()` accepts: only ASCII decimal digits are modelled. Python also accepts signs, spaces, underscores and other Unicode digits in a header field; those strings are excluded by the preconditions.
- Codec.RoundTrip: is about the digits-only decoder, and its only-if direction does not hold of Python. For addresses -9999 … -1, zfill keeps the `-` in front (`str(-3).zfill(5) == "-0003"`) and `int()` accepts it, so Python also round-trips those packets; the model's decoder rejects such a header.
- Host's one-element interface lists `in_intf_L` and `out_intf_L` are modelled as single fields, `inIntf` and `outIntf`.
- Router's interface lists are never reassigned, so they are constant sequences of `Interface` references rather than arrays.
- `Hosts.Host.UdtSend` is split into the segmentation loop (`SegmentLoop`) and the transmitting loop (`Transmit`), as in the two loops of the source.
