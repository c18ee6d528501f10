/**
 * The unicast sender's main loop body: entries (ip, fast_address, setpoint) are
 * grouped into an insertion-ordered dictionary keyed by ip, and one packet per
 * ip, holding only that ip's devices, is built and sent to the ip's UDP port.
 * The dictionary is modelled as its key order plus a map; a send is recorded as
 * a Datagram value instead of a socket write.
 */
module Unicast {
  import opened Wrappers
  import opened Bytes
  import opened FastPacket

  type Ip = string

  /** The FAST-PS default Fast Interface UDP port. */
  const TargetPort: nat := 30721

  /** One (ip, fast_address, setpoint) entry. */
  datatype Entry = Entry(ip: Ip, device: Device)

  /** One call of send_udp_packet(ip, port, packet). */
  datatype Datagram = Datagram(ip: Ip, port: nat, payload: seq<byte>)

  /* ---------- Specification of the grouping ---------- */

  /** The distinct ips of the entries, in order of first appearance. */
  function Ips(es: seq<Entry>): seq<Ip>
  {
    if es == [] then []
    else
      var init := Ips(es[..|es| - 1]);
      if es[|es| - 1].ip in init then init else init + [es[|es| - 1].ip]
  }

  /** The devices of the entries addressed to ip, in entry order. */
  function DevicesFor(es: seq<Entry>, ip: Ip): seq<Device>
  {
    if es == [] then []
    else
      var init := DevicesFor(es[..|es| - 1], ip);
      if es[|es| - 1].ip == ip then init + [es[|es| - 1].device] else init
  }

  /** The position of the first entry for ip, or |es| when there is none. */
  function FirstIndex(es: seq<Entry>, ip: Ip): (k: nat)
    ensures k <= |es|
    ensures k < |es| ==> es[k].ip == ip
    ensures forall j | 0 <= j < k :: es[j].ip != ip
  {
    if es == [] then 0
    else if es[0].ip == ip then 0
    else 1 + FirstIndex(es[1..], ip)
  }

  /** The total number of devices in the groups of the given ips. */
  function GroupSizes(es: seq<Entry>, ips: seq<Ip>): nat
  {
    if ips == [] then 0 else GroupSizes(es, ips[..|ips| - 1]) + |DevicesFor(es, ips[|ips| - 1])|
  }

  lemma GroupSizesStep(es: seq<Entry>, ips: seq<Ip>, k: nat)
    requires k < |ips|
    ensures GroupSizes(es, ips[..k + 1]) == GroupSizes(es, ips[..k]) + |DevicesFor(es, ips[k])|
  {
    assert ips[..k + 1][..k] == ips[..k];
  }

  predicate Distinct<T(==)>(s: seq<T>)
  {
    forall i, j | 0 <= i < j < |s| :: s[i] != s[j]
  }

  /* ---------- Properties of the grouping ---------- */

  /** An ip is a key exactly when some entry carries it, and each key occurs once. */
  lemma {:induction false} IpsAreTheDistinctIps(es: seq<Entry>)
    ensures Distinct(Ips(es))
    ensures forall ip :: ip in Ips(es) <==> exists j | 0 <= j < |es| :: es[j].ip == ip
  {
    if es != [] {
      var init := es[..|es| - 1];
      IpsAreTheDistinctIps(init);
      forall ip
        ensures ip in Ips(es) <==> exists j | 0 <= j < |es| :: es[j].ip == ip
      {
        if ip in Ips(es) && ip != es[|es| - 1].ip {
          var j :| 0 <= j < |init| && init[j].ip == ip;
          assert es[j].ip == ip;
        }
        if exists j | 0 <= j < |es| :: es[j].ip == ip {
          var j :| 0 <= j < |es| && es[j].ip == ip;
          if j < |init| {
            assert init[j].ip == ip;
          }
        }
      }
    }
  }

  /** A group is non-empty exactly when its ip is a key. */
  lemma {:induction false} GroupNonEmptyIff(es: seq<Entry>, ip: Ip)
    ensures |DevicesFor(es, ip)| > 0 <==> ip in Ips(es)
  {
    if es != [] {
      GroupNonEmptyIff(es[..|es| - 1], ip);
    }
  }

  /** The group built from a prefix of the entries is a prefix of the full group. */
  lemma {:induction false} GroupOfPrefix(es: seq<Entry>, n: nat, ip: Ip)
    requires n <= |es|
    ensures |DevicesFor(es[..n], ip)| <= |DevicesFor(es, ip)|
    ensures DevicesFor(es, ip)[..|DevicesFor(es[..n], ip)|] == DevicesFor(es[..n], ip)
  {
    if n < |es| {
      var init := es[..|es| - 1];
      assert init[..n] == es[..n];
      GroupOfPrefix(init, n, ip);
    } else {
      assert es[..n] == es;
    }
  }

  /**
   * Entry j's device sits in the group of its own ip, after the devices of the
   * earlier entries for that ip.
   */
  lemma EntryPositionInGroup(es: seq<Entry>, j: nat)
    requires j < |es|
    ensures var p := |DevicesFor(es[..j], es[j].ip)|;
      p < |DevicesFor(es, es[j].ip)| && DevicesFor(es, es[j].ip)[p] == es[j].device
  {
    var ip := es[j].ip;
    assert es[..j + 1][..j] == es[..j];
    GroupOfPrefix(es, j + 1, ip);
  }

  /** Two entries for the same ip keep their relative order inside its group. */
  lemma GroupKeepsOrder(es: seq<Entry>, i: nat, j: nat)
    requires i < j < |es| && es[i].ip == es[j].ip
    ensures |DevicesFor(es[..i], es[i].ip)| < |DevicesFor(es[..j], es[j].ip)|
  {
    var ip := es[i].ip;
    assert es[..j][..i + 1] == es[..i + 1];
    assert es[..i + 1][..i] == es[..i];
    GroupOfPrefix(es[..j], i + 1, ip);
  }

  lemma {:induction false} GroupSizesAppend(es: seq<Entry>, e: Entry, ips: seq<Ip>)
    ensures GroupSizes(es + [e], ips) == GroupSizes(es, ips) + Count(ips, e.ip)
  {
    if ips != [] {
      var init := ips[..|ips| - 1];
      GroupSizesAppend(es, e, init);
      assert (es + [e])[..|es|] == es;
      var last := ips[|ips| - 1];
      assert |DevicesFor(es + [e], last)| == |DevicesFor(es, last)| + (if e.ip == last then 1 else 0);
    }
  }

  function Count<T(==)>(s: seq<T>, x: T): nat
  {
    if s == [] then 0 else Count(s[..|s| - 1], x) + (if s[|s| - 1] == x then 1 else 0)
  }

  lemma {:induction false} CountDistinct<T>(s: seq<T>, x: T)
    requires Distinct(s)
    ensures Count(s, x) == (if x in s then 1 else 0)
  {
    if s != [] {
      CountDistinct(s[..|s| - 1], x);
    }
  }

  lemma {:induction false} GroupSizesOfAbsent(es: seq<Entry>, ips: seq<Ip>, ip: Ip)
    requires ip !in Ips(es)
    ensures GroupSizes(es, ips + [ip]) == GroupSizes(es, ips)
  {
    GroupNonEmptyIff(es, ip);
    assert (ips + [ip])[..|ips|] == ips;
  }

  /**
   * The groups partition the entries: their sizes add up to the number of
   * entries, so with EntryPositionInGroup every entry lands in exactly one group.
   */
  lemma {:induction false} GroupsPartitionEntries(es: seq<Entry>)
    ensures GroupSizes(es, Ips(es)) == |es|
  {
    if es != [] {
      var init := es[..|es| - 1];
      var e := es[|es| - 1];
      assert es == init + [e];
      GroupsPartitionEntries(init);
      IpsAreTheDistinctIps(init);
      if e.ip in Ips(init) {
        GroupSizesAppend(init, e, Ips(init));
        CountDistinct(Ips(init), e.ip);
      } else {
        var ips := Ips(init) + [e.ip];
        IpsAreTheDistinctIps(es);
        GroupSizesAppend(init, e, ips);
        CountDistinct(ips, e.ip);
        GroupSizesOfAbsent(init, Ips(init), e.ip);
      }
    }
  }

  lemma {:induction false} FirstIndexAppend(es: seq<Entry>, e: Entry, ip: Ip)
    ensures FirstIndex(es + [e], ip) == if FirstIndex(es, ip) < |es| || e.ip == ip then FirstIndex(es, ip) else |es| + 1
  {
    if es != [] {
      assert (es + [e])[1..] == es[1..] + [e];
      FirstIndexAppend(es[1..], e, ip);
    }
  }

  /** Appending an entry keeps the first appearance of every ip already seen. */
  lemma FirstIndexOfSeen(init: seq<Entry>, e: Entry, ip: Ip)
    requires ip in Ips(init)
    ensures FirstIndex(init + [e], ip) == FirstIndex(init, ip) < |init|
  {
    IpsAreTheDistinctIps(init);
    FirstIndexAppend(init, e, ip);
    var j :| 0 <= j < |init| && init[j].ip == ip;
  }

  predicate InFirstAppearanceOrder(es: seq<Entry>, ips: seq<Ip>)
  {
    forall i, j | 0 <= i < j < |ips| :: FirstIndex(es, ips[i]) < FirstIndex(es, ips[j]) < |es|
  }

  /** The keys come in order of each ip's first appearance among the entries. */
  lemma {:induction false} IpsInFirstAppearanceOrder(es: seq<Entry>)
    ensures InFirstAppearanceOrder(es, Ips(es))
  {
    if es != [] {
      var init := es[..|es| - 1];
      var e := es[|es| - 1];
      assert es == init + [e];
      IpsInFirstAppearanceOrder(init);
      AppendKeepsOrder(init, e);
    }
  }

  lemma AppendKeepsOrder(init: seq<Entry>, e: Entry)
    requires InFirstAppearanceOrder(init, Ips(init))
    ensures InFirstAppearanceOrder(init + [e], Ips(init + [e]))
  {
    forall i, j | 0 <= i < j < |Ips(init + [e])|
      ensures FirstIndex(init + [e], Ips(init + [e])[i]) < FirstIndex(init + [e], Ips(init + [e])[j]) < |init + [e]|
    {
      AppendKeepsPair(init, e, i, j);
    }
  }

  lemma AppendKeepsPair(init: seq<Entry>, e: Entry, i: nat, j: nat)
    requires InFirstAppearanceOrder(init, Ips(init))
    requires i < j < |Ips(init + [e])|
    ensures FirstIndex(init + [e], Ips(init + [e])[i]) < FirstIndex(init + [e], Ips(init + [e])[j]) < |init| + 1
  {
    var es := init + [e];
    assert es[..|es| - 1] == init;
    var ips := Ips(es);
    var n := |Ips(init)|;
    assert ips[i] == Ips(init)[i];
    FirstIndexOfSeen(init, e, ips[i]);
    if j < n {
      assert ips[j] == Ips(init)[j];
      FirstIndexOfSeen(init, e, ips[j]);
    } else {
      assert e.ip !in Ips(init) && ips[j] == e.ip;
      IpsAreTheDistinctIps(init);
      FirstIndexAppend(init, e, e.ip);
      assert FirstIndex(init, e.ip) == |init|;
    }
  }

  /* ---------- The imperative code ---------- */

  /**
   * fast-interface-unicast.py, lines 50-62: fill devices_by_ip entry by
   * entry, creating a key the first time its ip is seen and appending the
   * device to that key's list.
   */
  method GroupByIp(entries: seq<Entry>) returns (order: seq<Ip>, groups: map<Ip, seq<Device>>)
    ensures order == Ips(entries)
    ensures forall ip :: ip in groups <==> ip in order
    ensures forall ip | ip in groups :: groups[ip] == DevicesFor(entries, ip)
  {
    order, groups := [], map[];
    var i := 0;
    while i < |entries|
      invariant 0 <= i <= |entries|
      invariant order == Ips(entries[..i])
      invariant forall ip :: ip in groups <==> ip in order
      invariant forall ip | ip in groups :: groups[ip] == DevicesFor(entries[..i], ip)
    {
      var e := entries[i];
      assert entries[..i + 1][..i] == entries[..i];
      if e.ip !in groups {
        GroupNonEmptyIff(entries[..i], e.ip);
        groups := groups[e.ip := []];
        order := order + [e.ip];
      }
      groups := groups[e.ip := groups[e.ip] + [e.device]];
      i := i + 1;
    }
    assert entries[..i] == entries;
  }

  /**
   * The datagram sent k-th: addressed to ip on the target port, carrying the
   * packet built from ip's group with the default command and the k-th clock
   * reading.
   */
  predicate IsPacketFor(entries: seq<Entry>, clock: nat -> int, k: nat, ip: Ip, d: Datagram)
  {
    && d.ip == ip
    && d.port == TargetPort
    && EncodePacket(DefaultCommand, Nonce(clock(k)), DevicesFor(entries, ip)) == Success(d.payload)
  }

  /**
   * The payload sent to ip: a packet of 12 + 6n bytes, n the number of
   * entries for ip, that decodes to exactly ip's devices in entry order.
   */
  lemma DatagramContents(entries: seq<Entry>, clock: nat -> int, k: nat, ip: Ip, d: Datagram)
    requires IsPacketFor(entries, clock, k, ip, d)
    ensures |d.payload| == HeaderSize + RecordSize * |DevicesFor(entries, ip)|
    ensures DecodePacket(d.payload) == Some(Packet(DefaultCommand, Nonce(clock(k)), DevicesFor(entries, ip)))
  {
    PacketLayout(DefaultCommand, Nonce(clock(k)), DevicesFor(entries, ip));
    DecodeEncode(DefaultCommand, Nonce(clock(k)), DevicesFor(entries, ip));
  }

  /**
   * fast-interface-unicast.py, lines 50-70: group the entries, then build one
   * packet per ip with the default command and a fresh clock reading (clock(k)
   * is time_ns at the k-th build) and send it. A build that raises ends the loop: the error leaves
   * main, and the ips after it get nothing.
   */
  method SendPerIp(entries: seq<Entry>, clock: nat -> int) returns (sent: seq<Datagram>, failure: Option<PackError>)
    ensures |sent| <= |Ips(entries)|
    ensures failure.None? <==> |sent| == |Ips(entries)|
    ensures forall k | 0 <= k < |sent| :: IsPacketFor(entries, clock, k, Ips(entries)[k], sent[k])
    ensures failure.Some? ==>
      EncodePacket(DefaultCommand, Nonce(clock(|sent|)), DevicesFor(entries, Ips(entries)[|sent|])) == Failure(failure.value)
    ensures failure.None? ==> RecordCount(sent) == |entries|
  {
    var order, groups := GroupByIp(entries);
    sent := [];
    var k := 0;
    while k < |order|
      invariant 0 <= k <= |order| && |sent| == k
      invariant forall j | 0 <= j < k :: IsPacketFor(entries, clock, j, order[j], sent[j])
      invariant RecordCount(sent) == GroupSizes(entries, order[..k])
    {
      var ip := order[k];
      var packet := BuildFastPacket(groups[ip], clock(k));
      if packet.Failure? {
        return sent, Some(packet.error);
      }
      var d := Datagram(ip, TargetPort, packet.value);
      SentStep(entries, clock, order, sent, d);
      sent := sent + [d];
      k := k + 1;
    }
    assert order[..k] == order;
    GroupsPartitionEntries(entries);
    failure := None;
  }

  /** One more successful send keeps the loop's invariants of SendPerIp. */
  lemma SentStep(entries: seq<Entry>, clock: nat -> int, order: seq<Ip>, sent: seq<Datagram>, d: Datagram)
    requires |sent| < |order|
    requires forall j | 0 <= j < |sent| :: IsPacketFor(entries, clock, j, order[j], sent[j])
    requires RecordCount(sent) == GroupSizes(entries, order[..|sent|])
    requires IsPacketFor(entries, clock, |sent|, order[|sent|], d)
    ensures forall j | 0 <= j < |sent| + 1 :: IsPacketFor(entries, clock, j, order[j], (sent + [d])[j])
    ensures RecordCount(sent + [d]) == GroupSizes(entries, order[..|sent| + 1])
  {
    var k := |sent|;
    DatagramContents(entries, clock, k, order[k], d);
    RecordCountAppend(sent, d);
    GroupSizesStep(entries, order, k);
  }

  /** The number of device records carried by a sequence of datagrams. */
  function RecordCount(sent: seq<Datagram>): int
  {
    if sent == [] then 0
    else RecordCount(sent[..|sent| - 1]) + (|sent[|sent| - 1].payload| - HeaderSize) / RecordSize
  }

  lemma RecordCountAppend(sent: seq<Datagram>, d: Datagram)
    ensures RecordCount(sent + [d]) == RecordCount(sent) + (|d.payload| - HeaderSize) / RecordSize
  {
    assert (sent + [d])[..|sent|] == sent;
  }
}
