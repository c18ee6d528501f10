# FAST-PS Fast Interface senders, modelled in Dafny

The CAENels FAST-PS power supplies accept setpoints over the "Fast Interface":
one UDP datagram carries a 12-byte header (protocol id 0x7631, a 16-bit
command, a 64-bit nonce taken from the clock) followed by one 6-byte record per
power supply (a 16-bit fast address and the current setpoint as an IEEE 754
single-precision float), everything big-endian. Four sender scripts build this
packet with the same function, `build_fast_packet`, and send it by multicast,
by broadcast, by unicast (one packet per target ip) or, in a loop, as a
triangle-wave sweep.

The model has six modules:

- `Wrappers` — `Option` and `Result`.
- `Bytes` — unsigned integers as n-byte big-endian strings (`struct.pack`'s
  `>H`, `>Q` and the 4 bytes of `>f`) and the reading back of such strings.
- `Float32` — what a binary32 bit pattern denotes (normal, subnormal, zero;
  none for infinities and NaNs), and the exact pattern of an integer below
  2^24 in magnitude, which is what `struct.pack('>f', float(n))` writes.
- `FastPacket` — `build_fast_packet` as an imperative method over a growing
  byte sequence, proved equal to a specification function `EncodePacket`; a
  decoder for this layout (the 12-byte header, then 6-byte strides); the layout,
  round-trip and error lemmas.
- `Unicast` — the unicast script's grouping of `(ip, address, setpoint)`
  entries into an insertion-ordered dictionary (its key order plus a map) and
  its per-ip dispatch loop; a send is recorded as a `Datagram` value.
- `Sweep` — the continuous multicast script's `(setpoint, direction)` state
  machine and its send loop, proved to produce a period-20 triangle wave.

The four copies of `build_fast_packet` differ only in comments, docstrings and blank lines,
so one method models them all; the table cites whichever copy states a
property most directly. The clock is a parameter: `timeNs` for one packet, and
`clock(k)`, the k-th `time_ns` reading, inside the loops.

Two behaviours of the scripts that the model keeps:

- The scripts accept an empty device list, which gives the bare 12-byte
  header, and put no cap on the list's length; `FitsUdpPayload` gives the
  one-datagram bound of 10915 devices.
- In the unicast script a `struct.error` raised while building one ip's packet
  is not caught (`main` catches only `KeyboardInterrupt`), so the later ips get
  no packet.

## Model

| member | source | states |
|---|---|---|
| FastPacket.BuildFastPacket | fast-interface-multicast.py:9-32 | The packet built by appending the header fields and then each device's record equals `EncodePacket(command, time_ns mod 2^64, devices)`: the header followed by the records in list order, or the error for the first value `struct.pack('>H')` rejects |
| FastPacket.Nonce | fast-interface-multicast.py:18 | The nonce is below 2^64, congruent to `time_ns` modulo 2^64, and equal to it when it already fits in 64 bits |
| FastPacket.PackUShort | fast-interface-multicast.py:24 | `struct.pack('>H', x)` succeeds exactly when 0 <= x <= 65535, giving two bytes whose big-endian reading is x; otherwise the error names x |
| FastPacket.SetpointBytes | fast-interface-multicast.py:5-7 | The setpoint's 32-bit pattern is written as four bytes whose big-endian reading is that pattern |
| FastPacket.FirstBadAddress | fast-interface-multicast.py:28-29 | The returned index is at most the list length, every address before it fits 16 bits, and the address at it (if any) does not |
| FastPacket.EncodeSucceedsIff | fast-interface-multicast.py:24-29 | A packet is produced exactly when the command and every address lie in 0..65535 |
| FastPacket.EncodeError | fast-interface-broadcast.py:24-29 | On failure the error names the command when it is out of range, and otherwise the first out-of-range address, all earlier addresses being valid |
| FastPacket.PacketLayout | fast-interface-multicast.py:17-25 | The packet is 12 + 6n bytes; bytes 0-1 are 0x76 0x31; bytes 2-3 are the command high byte then low byte and read back as the command; bytes 4-11 are the 8-byte big-endian nonce and read back as it |
| FastPacket.DefaultCommandBytes | fast-interface-multicast.py:9-24 | With the default command bytes 2-3 are 0x00 0x00 |
| FastPacket.HeaderFields | fast-interface-unicast.py:21-23 | The header is 12 bytes: protocol id, command, nonce, each big-endian at offsets 0, 2 and 4 |
| FastPacket.PacketSplit | fast-interface-unicast.py:20-29 | A packet is its 12-byte header followed by the records, with the three header fields at offsets 0, 2 and 4 |
| FastPacket.DeviceAt | fast-interface-multicast.py:28-30 | For device i, bytes 12+6i..14+6i are its big-endian address and read back as it, and bytes 14+6i..18+6i are its big-endian setpoint pattern and read back as it |
| FastPacket.RecordInPacket | fast-interface-broadcast.py:28-30 | Device i's 6-byte record occupies bytes 12+6i up to 18+6i |
| FastPacket.RecordFields | fast-interface-unicast.py:25-27 | A record is 6 bytes: the 2 address bytes, then the 4 setpoint bytes |
| FastPacket.RecordBytes | fast-interface-unicast.py:26-27 | A record byte by byte: address high, address low, then the setpoint pattern from its most significant byte down |
| FastPacket.RecordAt | fast-interface-multicast.py:28-30 | In the concatenated records, device i's record starts at offset 6i: records keep the input order |
| FastPacket.RecordsAppend | fast-interface-multicast.py:28-30 | Appending a device to the list appends exactly its record to the bytes |
| FastPacket.EmptyDeviceList | fast-interface-multicast.py:20-32 | An empty device list is accepted and yields exactly the 12-byte header |
| FastPacket.FitsUdpPayload | fast-interface-broadcast.py:20-32 | The packet fits the 65507-byte IPv4 UDP payload exactly when there are at most 10915 devices |
| FastPacket.DecodeRecordsOfRecords | fast-interface-multicast.py:28-30 | Reading the record bytes in 6-byte strides gives back the original (address, pattern) list |
| FastPacket.RecordsOfDecodeRecords | fast-interface-multicast.py:28-30 | Any byte string of 6-byte strides is the encoding of the list read from it |
| FastPacket.DecodeEncode | fast-interface-broadcast.py:20-32 | Decoding a built packet recovers its command, its nonce and its ordered device list |
| FastPacket.EncodeDecode | fast-interface-broadcast.py:20-32 | Every byte string the decoder accepts is the packet built from what it decodes to |
| FastPacket.TwoDeviceScenario | fast-interface-multicast.py:61-81 | For devices 1001 and 1002 with patterns 0x40200000 and 0xBFA00000, which are proved to denote 2.5 and -1.25, the packet is 24 bytes: 76 31 00 00, the nonce, then 03 E9 40 20 00 00 03 EA BF A0 00 00 |
| Float32.HalfStepPatterns | fast-interface-multicast.py:5-7 | The binary32 pattern 0x40200000 denotes 2.5 and 0xBFA00000 denotes -1.25 |
| Bytes.FromBigEndianInverse | fast-interface-multicast.py:23-25 | Reading back the n-byte big-endian encoding of v gives v |
| Bytes.BigEndianInverse | fast-interface-multicast.py:23-25 | Every n-byte string is the big-endian encoding of the number it reads as |
| Bytes.TwoBytes | fast-interface-multicast.py:23-24 | The `>H` encoding of v is its high byte then its low byte |
| Bytes.FourBytes | fast-interface-multicast.py:5-7 | The 4-byte encoding of a 32-bit pattern is its bytes from the most significant down |
| Float32.FromIntFields | fast-interface-multicast-continuous.py:54 | For a non-zero integer below 2^24 in magnitude, the pattern has the integer's sign, exponent field 127 + floor(log2 abs n), and the bits below the leading one as its fraction |
| Float32.FromIntDenotes | fast-interface-multicast-continuous.py:54 | The pattern written for `float(n)`, n an integer below 2^24 in magnitude, denotes exactly n; for n = 0 it is the +0 pattern 00 00 00 00, as `float(0)` packs |
| Unicast.GroupByIp | fast-interface-unicast.py:50-62 | Filling the dictionary entry by entry leaves as keys exactly the distinct ips in order of first appearance, and under each key the devices of that ip's entries in entry order |
| Unicast.IpsAreTheDistinctIps | fast-interface-unicast.py:60-61 | The keys are distinct, and an ip is a key exactly when some entry carries it |
| Unicast.GroupNonEmptyIff | fast-interface-unicast.py:60-62 | An ip's group is non-empty exactly when the ip is a key |
| Unicast.GroupOfPrefix | fast-interface-unicast.py:62 | The group built from the first n entries is a prefix of the final group |
| Unicast.EntryPositionInGroup | fast-interface-unicast.py:60-62 | Entry j's device lies in the group of its own ip, right after the devices of the earlier entries for that ip |
| Unicast.GroupKeepsOrder | fast-interface-unicast.py:62 | Two entries for the same ip keep their relative order inside its group |
| Unicast.GroupsPartitionEntries | fast-interface-unicast.py:50-62 | The group sizes add up to the number of entries, so each entry lands in exactly one group |
| Unicast.IpsInFirstAppearanceOrder | fast-interface-unicast.py:60-68 | The keys, and so the packets, come in strictly increasing order of each ip's first entry |
| Unicast.DatagramContents | fast-interface-unicast.py:68-70 | The packet sent to an ip is 12 + 6n bytes, n the number of entries for that ip, and decodes to the default command, the nonce and exactly that ip's devices in entry order |
| Unicast.SendPerIp | fast-interface-unicast.py:50-70 | The k-th datagram goes to the k-th key on port 30721 and carries the packet of that ip's group with the k-th clock reading; all keys get one datagram unless a build fails, in which case the error is that build's and the later keys get none; on success the datagrams carry one record per entry |
| Sweep.Clamp | fast-interface-multicast-continuous.py:69 | The result lies in [-5, 5] and is the input when the input does, the nearer bound otherwise |
| Sweep.Next | fast-interface-multicast-continuous.py:61-69 | The direction stays 1 or -1 and flips exactly when it was 1 at a setpoint >= 5 or -1 at a setpoint <= -5; the new setpoint is clamp(setpoint + direction * step) and lies in [-5, 5] |
| Sweep.NextFollowsTriangle | fast-interface-multicast-continuous.py:61-69 | One update moves a state on the triangle wave to the wave's next sample |
| Sweep.SweepIsTriangle | fast-interface-multicast-continuous.py:47-69 | Started from setpoint 0 and direction 1, the state in round k is (Triangle(k), DirectionAt(k)): 0, 1, ..., 5, 4, ..., -5, -4, ..., -1 and around again |
| Sweep.ReachableStates | fast-interface-multicast-continuous.py:47-69 | Every reachable setpoint lies in [-5, 5] and every reachable direction is 1 or -1 |
| Sweep.SweepPeriodic | fast-interface-multicast-continuous.py:47-69 | The sweep repeats every 20 rounds |
| Sweep.TurningPoints | fast-interface-multicast-continuous.py:62-65 | The sweep reaches 5 in round 5 and turns, reaches -5 in round 15 and turns, and is back at (0, 1) in round 20 |
| Sweep.SweepDevices | fast-interface-multicast-continuous.py:54 | Every configured address, in list order, gets a record whose pattern denotes exactly the current setpoint; the records are encodable exactly when every address fits 16 bits |
| Sweep.RoundPacketContents | fast-interface-multicast-continuous.py:54-55 | The round-k packet is 12 + 6n bytes, starts 76 31 00 00 then the nonce, and record i holds address i followed by a pattern whose value is the round's setpoint Triangle(k) |
| Sweep.RunContinuous | fast-interface-multicast-continuous.py:47-69 | Round k sends the packet of the triangle-wave setpoint Triangle(k) for every address with the k-th clock reading; every round succeeds unless some address is out of range, in which case the first round fails with that error and nothing is sent |
| Sweep.ConfiguredRoundsSucceed | fast-interface-multicast-continuous.py:42-55 | The configured addresses 1001 and 1002 fit 16 bits, so every round's packet is built; with RunContinuous's failure clause the sweep over them never fails |

## Left out

- Socket senders (`send_multicast_packet`, `send_udp_packet`, `send_broadcast_packet`) and their options (multicast interface, TTL 1, loopback, broadcast): operating-system I/O; a send is recorded as a value.
- `time.time_ns()`: a parameter (`timeNs`, or `clock(k)` in the loops); whether two nonces differ depends on the clock and is not stated.
- FastPacket.SetpointBytes: takes the setpoint as its binary32 pattern; the rounding of a Python float to binary32 and the `OverflowError` `struct.pack('>f')` raises for huge values are floating point and not modelled. Only integer setpoints, which the sweep uses, are converted (`Float32.FromInt`, exact below 2^24).
- Interactive input loops, `float(user_input)` parsing, the 'q' command, `print`, `time.sleep` and `KeyboardInterrupt` handling: user interface and process lifecycle. The unicast and multicast entries are parameters instead of typed-in values.
- Sweep.RunContinuous: runs a given number of rounds; the script's `while True` loop ends only when interrupted.
- `struct.pack('>H')` given a value that is not an integer raises `struct.error` ("required argument is not an integer"); the model's addresses and command are integers, so that error is not modelled.
- Length limits on the device list: the scripts check neither for an empty list nor for a long one, so the model checks neither; `FitsUdpPayload` states the one-datagram bound.
- FastPacket.PackUShort: its error `UShortOutOfRange(x)` records the rejected value, while Python's `struct.error` carries only the fixed text "'H' format requires 0 <= number <= 65535".
- FastPacket.EncodeError: tells a bad command from a bad address by the value recorded in the error; the source's exception carries no value, so a caller in Python cannot tell them apart from the exception alone.
