/**
  What a speaker derives from the OPEN of its peer: `CompareAddPath` and `UpdateFromOpen` (section 4 of RFC 7911,
  section 3 of RFC 6793), and whether the two ends of a session derive matching codec modes.
 */
module Negotiation {
  import opened Bytes
  import Nlri
  import O = OpenMessage
  import U = UpdateMessage
  import A = Attributes
  import AsPath
  import AttributeProofs

  type Families = seq<Nlri.AfiSafi>

  // ---------------------------------------------------------------- CompareAddPath

  /** `TxRx & 1`. */
  predicate Receives(txrx: byte) {
    txrx % 2 == 1
  }

  /** `TxRx & 2`. */
  predicate Sends(txrx: byte) {
    txrx / 2 % 2 == 1
  }

  /** `(x | y) == 3`: no bit past the low two, and both of those set on one side or the other. */
  predicate OrIsThree(x: byte, y: byte) {
    x < 4 && y < 4 && (Receives(x) || Receives(y)) && (Sends(x) || Sends(y))
  }

  function Family(p: O.AddPath): Nlri.AfiSafi {
    Nlri.AfiSafi(p.afi, p.safi)
  }

  /** The first entry of `remote` from `j` on for the given family, or the length of `remote`. */
  function FirstMatch(f: Nlri.AfiSafi, remote: seq<O.AddPath>, j: nat): (r: nat)
    requires j <= |remote|
    ensures j <= r <= |remote|
    ensures r < |remote| ==> Family(remote[r]) == f
    ensures forall k :: j <= k < r ==> Family(remote[k]) != f
    decreases |remote| - j
  {
    if j == |remote| || Family(remote[j]) == f then j else FirstMatch(f, remote, j + 1)
  }

  /** Entry `i` of `local` meets an entry of `remote` with which it passes the `== 3` test. */
  predicate Matched(local: seq<O.AddPath>, remote: seq<O.AddPath>, i: nat)
    requires i < |local|
  {
    var j := FirstMatch(Family(local[i]), remote, 0);
    j < |remote| && OrIsThree(local[i].txrx, remote[j].txrx)
  }

  /** The bits tested are those of `remote[i]`, not of the entry that matched. */
  predicate AddsSend(local: seq<O.AddPath>, remote: seq<O.AddPath>, i: nat)
    requires i < |local|
  {
    Matched(local, remote, i) && i < |remote| && Receives(remote[i].txrx) && Sends(local[i].txrx)
  }

  predicate AddsDecode(local: seq<O.AddPath>, remote: seq<O.AddPath>, i: nat)
    requires i < |local|
  {
    Matched(local, remote, i) && i < |remote| && Sends(remote[i].txrx) && Receives(local[i].txrx)
  }

  /** The families to send, and to decode, with path identifiers; `None` when `remote[i]` is out of range. */
  function CompareFrom(local: seq<O.AddPath>, remote: seq<O.AddPath>, i: nat): Option<(Families, Families)>
    requires i <= |local|
    decreases |local| - i
  {
    if i == |local| then Some(([], []))
    else if Matched(local, remote, i) && i >= |remote| then None
    else
      match CompareFrom(local, remote, i + 1)
      case None => None
      case Some((send, decode)) =>
        var f := [Family(local[i])];
        Some((if AddsSend(local, remote, i) then f + send else send,
              if AddsDecode(local, remote, i) then f + decode else decode))
  }

  function Compare(local: seq<O.AddPath>, remote: seq<O.AddPath>): Option<(Families, Families)> {
    CompareFrom(local, remote, 0)
  }

  ghost function After(send: Families, decode: Families, r: Option<(Families, Families)>): Option<(Families, Families)> {
    match r
    case None => None
    case Some((s, d)) => Some((send + s, decode + d))
  }

  lemma AfterStep(local: seq<O.AddPath>, remote: seq<O.AddPath>, i: nat, send: Families, decode: Families)
    requires i < |local| && !(Matched(local, remote, i) && i >= |remote|)
    ensures var f := [Family(local[i])];
      After(send, decode, CompareFrom(local, remote, i)) ==
      After(if AddsSend(local, remote, i) then send + f else send,
            if AddsDecode(local, remote, i) then decode + f else decode, CompareFrom(local, remote, i + 1))
  {
    var r := CompareFrom(local, remote, i + 1);
    if r.Some? {
      Assoc(send, [Family(local[i])], r.value.0);
      Assoc(decode, [Family(local[i])], r.value.1);
    }
  }

  lemma AfterNothing(r: Option<(Families, Families)>)
    ensures After([], [], r) == r
  {
    if r.Some? {
      assert [] + r.value.0 == r.value.0 && [] + r.value.1 == r.value.1;
    }
  }

  method CompareAddPath(local: seq<O.AddPath>, remote: seq<O.AddPath>) returns (r: Option<(Families, Families)>)
    ensures r == Compare(local, remote)
  {
    var recv: Families := [];
    var send: Families := [];
    AfterNothing(Compare(local, remote));
    for i := 0 to |local|
      invariant Compare(local, remote) == After(send, recv, CompareFrom(local, remote, i))
    {
      var j := 0;
      while j < |remote| && !(local[i].afi == remote[j].afi && local[i].safi == remote[j].safi)
        invariant j <= |remote|
        invariant FirstMatch(Family(local[i]), remote, 0) == FirstMatch(Family(local[i]), remote, j)
      {
        j := j + 1;
      }
      var matched := j < |remote| && OrIsThree(local[i].txrx, remote[j].txrx);
      if matched && i >= |remote| {
        return None;
      }
      AfterStep(local, remote, i, send, recv);
      if matched {
        if Sends(remote[i].txrx) && Receives(local[i].txrx) {
          recv := recv + [Nlri.AfiSafi(local[i].afi, local[i].safi)];
        }
        if Receives(remote[i].txrx) && Sends(local[i].txrx) {
          send := send + [Nlri.AfiSafi(local[i].afi, local[i].safi)];
        }
      }
    }
    assert send + [] == send && recv + [] == recv;
    return Some((send, recv));
  }

  /** What the two lists hold, and when the comparison faults. */
  lemma {:induction false} CompareMeaning(local: seq<O.AddPath>, remote: seq<O.AddPath>, k: nat)
    requires k <= |local|
    ensures var r := CompareFrom(local, remote, k);
      && (r.None? <==> exists i :: k <= i < |local| && Matched(local, remote, i) && i >= |remote|)
      && (r.Some? ==> forall x ::
            && (x in r.value.0 <==> exists i :: k <= i < |local| && Family(local[i]) == x && AddsSend(local, remote, i))
            && (x in r.value.1 <==> exists i :: k <= i < |local| && Family(local[i]) == x && AddsDecode(local, remote, i)))
    decreases |local| - k
  {
    if k < |local| {
      CompareMeaning(local, remote, k + 1);
    }
  }

  predicate Distinct(l: seq<O.AddPath>) {
    forall i, j :: 0 <= i < j < |l| ==> Family(l[i]) != Family(l[j])
  }

  /** Every family in both lists stands at the same index. */
  predicate Aligned(a: seq<O.AddPath>, b: seq<O.AddPath>) {
    forall i, j :: 0 <= i < |a| && 0 <= j < |b| && Family(a[i]) == Family(b[j]) ==> i == j
  }

  /** What section 4 of RFC 7911 asks for: `a` announces 2 or 3 for family `x`, to send it, and `b` 1 or 3, to receive it. */
  ghost predicate Agreed(a: seq<O.AddPath>, b: seq<O.AddPath>, x: Nlri.AfiSafi) {
    exists i, j :: 0 <= i < |a| && 0 <= j < |b| && Family(a[i]) == x == Family(b[j])
      && (a[i].txrx == 2 || a[i].txrx == 3) && (b[j].txrx == 1 || b[j].txrx == 3)
  }

  /** Single entries of one family, whatever they announce: the values that lead to sending and to decoding. */
  lemma SingleEntries(x: O.AddPath, y: O.AddPath)
    requires x.afi == y.afi && x.safi == y.safi
    ensures Compare([x], [y]).Some?
    ensures Compare([x], [y]).value.0
      == if (x.txrx == 2 || x.txrx == 3) && (y.txrx == 1 || y.txrx == 3) then [Nlri.AfiSafi(x.afi, x.safi)] else []
    ensures Compare([x], [y]).value.1
      == if (x.txrx == 1 || x.txrx == 3) && (y.txrx == 2 || y.txrx == 3) then [Nlri.AfiSafi(x.afi, x.safi)] else []
  {
    assert FirstMatch(Family(x), [y], 0) == 0;
    assert CompareFrom([x], [y], 1) == Some(([], []));
  }

  predicate Directions(l: seq<O.AddPath>) {
    forall p | p in l :: 1 <= p.txrx <= 3
  }

  /** For one family at one index on both sides, the code's two tests are the ones RFC 7911 asks for. */
  lemma AlignedEntry(a: seq<O.AddPath>, b: seq<O.AddPath>, i: nat)
    requires Directions(a) && Directions(b) && Aligned(a, b) && i < |a|
    ensures Matched(a, b, i) ==> i < |b|
    ensures AddsSend(a, b, i) <==> SendAgreed(a, b, i)
    ensures AddsDecode(a, b, i) <==> DecodeAgreed(a, b, i)
  {
    var j := FirstMatch(Family(a[i]), b, 0);
    if j < |b| {
      assert j == i;
      assert a[i] in a && b[j] in b;
    } else {
      assert i < |b| ==> Family(b[i]) != Family(a[i]);
    }
  }

  predicate SendAgreed(a: seq<O.AddPath>, b: seq<O.AddPath>, i: nat)
    requires i < |a|
  {
    i < |b| && Family(b[i]) == Family(a[i]) && (a[i].txrx == 2 || a[i].txrx == 3) && (b[i].txrx == 1 || b[i].txrx == 3)
  }

  predicate DecodeAgreed(a: seq<O.AddPath>, b: seq<O.AddPath>, i: nat)
    requires i < |a|
  {
    i < |b| && Family(b[i]) == Family(a[i]) && (b[i].txrx == 2 || b[i].txrx == 3) && (a[i].txrx == 1 || a[i].txrx == 3)
  }

  lemma AgreedAtIndex(a: seq<O.AddPath>, b: seq<O.AddPath>, x: Nlri.AfiSafi)
    requires Aligned(a, b)
    ensures Agreed(a, b, x) <==> exists i :: 0 <= i < |a| && Family(a[i]) == x && SendAgreed(a, b, i)
    ensures Agreed(b, a, x) <==> exists i :: 0 <= i < |a| && Family(a[i]) == x && DecodeAgreed(a, b, i)
  {
    if Agreed(a, b, x) {
      var i, j :| 0 <= i < |a| && 0 <= j < |b| && Family(a[i]) == x == Family(b[j])
        && (a[i].txrx == 2 || a[i].txrx == 3) && (b[j].txrx == 1 || b[j].txrx == 3);
      assert i == j && SendAgreed(a, b, i);
    }
    if Agreed(b, a, x) {
      var j, i :| 0 <= j < |b| && 0 <= i < |a| && Family(b[j]) == x == Family(a[i])
        && (b[j].txrx == 2 || b[j].txrx == 3) && (a[i].txrx == 1 || a[i].txrx == 3);
      assert i == j && DecodeAgreed(a, b, i);
    }
  }

  /** On aligned lists the comparison never faults and gives exactly the families both sides agreed on. */
  lemma AlignedMeansAgreed(a: seq<O.AddPath>, b: seq<O.AddPath>)
    requires Directions(a) && Directions(b) && Aligned(a, b)
    ensures Compare(a, b).Some?
    ensures forall x :: x in Compare(a, b).value.0 <==> Agreed(a, b, x)
    ensures forall x :: x in Compare(a, b).value.1 <==> Agreed(b, a, x)
  {
    hide Matched, AddsSend, AddsDecode, SendAgreed, DecodeAgreed, Agreed, Family, Directions, Aligned;
    CompareMeaning(a, b, 0);
    forall i | 0 <= i < |a|
      ensures Matched(a, b, i) ==> i < |b|
      ensures AddsSend(a, b, i) <==> SendAgreed(a, b, i)
      ensures AddsDecode(a, b, i) <==> DecodeAgreed(a, b, i)
    {
      AlignedEntry(a, b, i);
    }
    forall x
      ensures x in Compare(a, b).value.0 <==> Agreed(a, b, x)
      ensures x in Compare(a, b).value.1 <==> Agreed(b, a, x)
    {
      AgreedAtIndex(a, b, x);
    }
  }

  // ---------------------------------------------------------------- when the two ends match

  /** The families `a` sends with path identifiers are those `b` decodes with them. */
  ghost predicate SendMatchesDecode(a: seq<O.AddPath>, b: seq<O.AddPath>)
    requires Compare(a, b).Some? && Compare(b, a).Some?
  {
    forall x :: x in Compare(a, b).value.0 <==> x in Compare(b, a).value.1
  }

  /** Entries `i` of `a` and `j` of `b` are for one family and pass the `== 3` test. */
  predicate Paired(a: seq<O.AddPath>, b: seq<O.AddPath>, i: nat, j: nat) {
    i < |a| && j < |b| && Family(a[i]) == Family(b[j]) && OrIsThree(a[i].txrx, b[j].txrx)
  }

  /** The test `a` makes at index `i` and the test `b` makes at index `j`. */
  predicate TestsAgree(a: seq<O.AddPath>, b: seq<O.AddPath>, i: nat, j: nat) {
    i < |a| && i < |b| && j < |a| && j < |b|
    && ((Receives(b[i].txrx) && Sends(a[i].txrx)) <==> (Sends(a[j].txrx) && Receives(b[j].txrx)))
  }

  lemma MatchedIsPaired(a: seq<O.AddPath>, b: seq<O.AddPath>, i: nat, j: nat)
    requires Distinct(b) && i < |a| && j < |b| && Family(a[i]) == Family(b[j])
    ensures FirstMatch(Family(a[i]), b, 0) == j
    ensures Matched(a, b, i) <==> Paired(a, b, i, j)
  {
  }

  lemma PairedEntries(a: seq<O.AddPath>, b: seq<O.AddPath>, i: nat, j: nat)
    requires Distinct(a) && Distinct(b) && Paired(a, b, i, j)
    requires Compare(a, b).Some? && Compare(b, a).Some?
    ensures i < |b| && j < |a|
    ensures Family(a[i]) in Compare(a, b).value.0 <==> Receives(b[i].txrx) && Sends(a[i].txrx)
    ensures Family(a[i]) in Compare(b, a).value.1 <==> Sends(a[j].txrx) && Receives(b[j].txrx)
  {
    MatchedIsPaired(a, b, i, j);
    MatchedIsPaired(b, a, j, i);
    CompareMeaning(a, b, 0);
    CompareMeaning(b, a, 0);
  }

  /**
    The two ends match exactly when, for every family announced by both that passes the `== 3` test, the test one
    end makes at its own index gives what the test of the other end gives at its index.
   */
  lemma SendMatchesDecodeIff(a: seq<O.AddPath>, b: seq<O.AddPath>)
    requires Distinct(a) && Distinct(b) && Compare(a, b).Some? && Compare(b, a).Some?
    ensures SendMatchesDecode(a, b) <==> forall i: nat, j: nat :: Paired(a, b, i, j) ==> TestsAgree(a, b, i, j)
  {
    forall i: nat, j: nat | Paired(a, b, i, j)
      ensures i < |b| && j < |a|
      ensures Family(a[i]) in Compare(a, b).value.0 <==> Receives(b[i].txrx) && Sends(a[i].txrx)
      ensures Family(a[i]) in Compare(b, a).value.1 <==> Sends(a[j].txrx) && Receives(b[j].txrx)
    {
      PairedEntries(a, b, i, j);
    }
    forall x | x in Compare(a, b).value.0 || x in Compare(b, a).value.1
      ensures exists i: nat, j: nat :: Paired(a, b, i, j) && Family(a[i]) == x
    {
      ListedIsPaired(a, b, x);
    }
  }

  lemma ListedIsPaired(a: seq<O.AddPath>, b: seq<O.AddPath>, x: Nlri.AfiSafi)
    requires Compare(a, b).Some? && Compare(b, a).Some?
    requires x in Compare(a, b).value.0 || x in Compare(b, a).value.1
    ensures exists i: nat, j: nat :: Paired(a, b, i, j) && Family(a[i]) == x
  {
    CompareMeaning(a, b, 0);
    CompareMeaning(b, a, 0);
    if x in Compare(a, b).value.0 {
      var i :| 0 <= i < |a| && Family(a[i]) == x && AddsSend(a, b, i);
      assert Paired(a, b, i, FirstMatch(x, b, 0));
    } else {
      var j :| 0 <= j < |b| && Family(b[j]) == x && AddsDecode(b, a, j);
      assert Paired(a, b, FirstMatch(x, a, 0), j);
    }
  }

  /** Reading `remote[i]` instead of the entry that matched can leave the two ends with different modes. */
  lemma MismatchedLists() returns (a: seq<O.AddPath>, b: seq<O.AddPath>)
    ensures Distinct(a) && Distinct(b) && Directions(a) && Directions(b)
    ensures Compare(a, b).Some? && Compare(b, a).Some? && !SendMatchesDecode(a, b)
  {
    a := [O.AddPath(1, 1, 3), O.AddPath(2, 1, 1)];
    b := [O.AddPath(2, 1, 3), O.AddPath(1, 1, 3)];
    NoFault(a, b);
    NoFault(b, a);
    assert Paired(a, b, 0, 1) && !TestsAgree(a, b, 0, 1);
    SendMatchesDecodeIff(a, b);
  }

  /** A local list with two families faults on a remote list that holds only the second of them. */
  lemma ShortListFaults()
    ensures Compare(DEFAULT_ADD_PATHS, [O.AddPath(Nlri.AFI_IPV6, Nlri.SAFI_UNICAST, 3)]) == None
  {
    var remote := [O.AddPath(Nlri.AFI_IPV6, Nlri.SAFI_UNICAST, 3)];
    CompareMeaning(DEFAULT_ADD_PATHS, remote, 0);
    assert FirstMatch(Family(DEFAULT_ADD_PATHS[1]), remote, 0) == 0;
    assert Matched(DEFAULT_ADD_PATHS, remote, 1);
  }

  lemma NothingMatched(l: seq<O.AddPath>)
    ensures forall i | 0 <= i < |l| :: !Matched(l, [], i)
  {
  }

  lemma NoFault(a: seq<O.AddPath>, b: seq<O.AddPath>)
    requires |a| <= |b|
    ensures Compare(a, b).Some?
  {
    CompareMeaning(a, b, 0);
  }

  // ---------------------------------------------------------------- UpdateFromOpen

  /** The local configuration that an OPEN announces. */
  datatype Config = Config(asn: u32, identifier: seq<byte>, mp: Families, addPaths: seq<O.AddPath>, routeRefresh: bool)

  /** What is known about the peer. */
  datatype Peer = Peer(
    asn: u32, identifier: seq<byte>, twoBytes: bool, mp: Families, addPaths: seq<O.AddPath>, routeRefresh: bool,
    send: Families, decode: Families)

  /** The add-path list of a neighbor made with add-path on. */
  const DEFAULT_ADD_PATHS: seq<O.AddPath> :=
    [O.AddPath(Nlri.AFI_IPV4, Nlri.SAFI_UNICAST, 3), O.AddPath(Nlri.AFI_IPV6, Nlri.SAFI_UNICAST, 3)]

  /** The configuration `NewNeighbor` makes. */
  function DefaultConfig(asn: u32, identifier: seq<byte>, addpath: bool, routerefresh: bool): Config {
    Config(asn, identifier,
           [Nlri.AfiSafi(Nlri.AFI_IPV4, Nlri.SAFI_UNICAST), Nlri.AfiSafi(Nlri.AFI_IPV6, Nlri.SAFI_UNICAST)],
           if addpath then DEFAULT_ADD_PATHS else [], routerefresh)
  }

  /** A neighbor that has not processed an OPEN yet. */
  const NEW_PEER: Peer := Peer(0, [], false, [], [], false, [], [])

  function Announce(c: Config, holdTime: u16): O.Open {
    O.Craft(c.asn, holdTime, To4(c.identifier), c.mp, c.addPaths, c.routeRefresh)
  }

  /** One capability; the family list is rebuilt from the local one each time. `None` is a fault. */
  function ApplyCapability(c: Config, p: Peer, capa: O.Capability): Option<Peer> {
    match capa
    case MP(afi, safi) => Some(p.(mp := c.mp + [Nlri.AfiSafi(afi, safi)]))
    case AddPaths(list) =>
      (match Compare(c.addPaths, list)
       case None => None
       case Some((send, decode)) => Some(p.(addPaths := list, send := send, decode := decode)))
    case ASN(asn) => Some(p.(asn := asn, twoBytes := false))
    case RouteRefresh => Some(p.(routeRefresh := true))
    case Other(_, _) => Some(p)
  }

  function ApplyCapabilities(c: Config, p: Peer, l: seq<O.Capability>): Option<Peer>
    decreases |l|
  {
    if l == [] then Some(p)
    else
      match ApplyCapability(c, p, l[0])
      case None => None
      case Some(q) => ApplyCapabilities(c, q, l[1..])
  }

  /** A capability parameter without data fails its type assertion. */
  function ApplyParameters(c: Config, p: Peer, l: seq<O.Parameter>): Option<Peer>
    decreases |l|
  {
    if l == [] then Some(p)
    else if l[0].ptype != O.PARAMETER_CAPA then ApplyParameters(c, p, l[1..])
    else if l[0].data.None? then None
    else
      match ApplyCapabilities(c, p, l[0].data.value)
      case None => None
      case Some(q) => ApplyParameters(c, q, l[1..])
  }

  function ApplyOpen(c: Config, p: Peer, open: O.Open): Option<Peer> {
    ApplyParameters(c, p.(asn := open.asn, identifier := open.identifier, twoBytes := true), open.parameters)
  }

  lemma {:induction false} ApplyCapabilitiesConcat(c: Config, p: Peer, l: seq<O.Capability>, m: seq<O.Capability>)
    ensures ApplyCapabilities(c, p, l + m) ==
      match ApplyCapabilities(c, p, l) case None => None case Some(q) => ApplyCapabilities(c, q, m)
    decreases |l|
  {
    if l == [] {
      assert l + m == m;
    } else {
      assert (l + m)[1..] == l[1..] + m;
      var q := ApplyCapability(c, p, l[0]);
      if q.Some? {
        ApplyCapabilitiesConcat(c, q.value, l[1..], m);
      }
    }
  }

  /** After any number of family capabilities only the last one is kept, behind the local list. */
  lemma {:induction false} ApplyFamilies(c: Config, p: Peer, l: Families)
    ensures ApplyCapabilities(c, p, O.MPCapabilities(l)) == Some(if l == [] then p else p.(mp := c.mp + [l[|l| - 1]]))
    decreases |l|
  {
    hide Compare;
    if l != [] {
      var q := p.(mp := c.mp + [l[0]]);
      assert O.MPCapabilities(l)[1..] == O.MPCapabilities(l[1..]);
      ApplyFamilies(c, q, l[1..]);
    }
  }

  /** The peer's family list is the announced one exactly when the local list is that one without its last family. */
  lemma FamiliesKeptIff(c: Config, p: Peer, l: Families)
    ensures ApplyCapabilities(c, p, O.MPCapabilities(l)).Some?
    ensures ApplyCapabilities(c, p, O.MPCapabilities(l)).value.mp == l
      <==> if l == [] then p.mp == [] else c.mp == l[..|l| - 1]
  {
    ApplyFamilies(c, p, l);
    if l != [] {
      assert l == l[..|l| - 1] + [l[|l| - 1]];
      SplitConcat(c.mp, [l[|l| - 1]]);
      assert c.mp + [l[|l| - 1]] == l ==> (c.mp + [l[|l| - 1]])[..|c.mp|] == l[..|l| - 1];
    }
  }

  /** Two neighbors with the default families: each ends up with IPv4 once and IPv6 twice for the other. */
  lemma DefaultFamiliesAreDoubled(p: Peer)
    ensures var l := DefaultConfig(0, [], false, false).mp;
      ApplyCapabilities(DefaultConfig(0, [], false, false), p, O.MPCapabilities(l)) == Some(p.(mp := [l[0], l[1], l[1]]))
  {
    var c := DefaultConfig(0, [], false, false);
    ApplyFamilies(c, p, c.mp);
    assert c.mp + [c.mp[1]] == [c.mp[0], c.mp[1], c.mp[1]];
  }

  /** The modes after a crafted OPEN: those of before, if no add-path is announced. `None` is the fault. */
  function Modes(c: Config, p: Peer, remote: Config): Option<(Families, Families)> {
    if remote.addPaths == [] then Some((p.send, p.decode)) else Compare(c.addPaths, remote.addPaths)
  }

  /**
    What a crafted OPEN leaves at the receiver: the full ASN, also when the two-octet field carries 23456, four-octet
    ASN encoding, and the outcome of the add-path comparison if add-path was announced; and when it faults.
   */
  lemma ApplyCrafted(c: Config, p: Peer, remote: Config, holdTime: u16)
    ensures ApplyOpen(c, p, Announce(remote, holdTime)).None? <==> Modes(c, p, remote).None?
    ensures var r := ApplyOpen(c, p, Announce(remote, holdTime));
      r.Some? ==>
        && r.value.asn == remote.asn && !r.value.twoBytes && r.value.identifier == To4(remote.identifier)
        && r.value.mp == (if remote.mp == [] then p.mp else c.mp + [remote.mp[|remote.mp| - 1]])
        && r.value.routeRefresh == (p.routeRefresh || remote.routeRefresh)
        && r.value.addPaths == (if remote.addPaths == [] then p.addPaths else remote.addPaths)
        && Some((r.value.send, r.value.decode)) == Modes(c, p, remote)
  {
    var open := Announce(remote, holdTime);
    var first := [O.ASN(remote.asn)];
    var mps := O.MPCapabilities(remote.mp);
    var third := if remote.addPaths != [] then [O.AddPaths(remote.addPaths)] else [];
    var fourth := if remote.routeRefresh then [O.RouteRefresh] else [];
    var q := p.(asn := open.asn, identifier := open.identifier, twoBytes := true);
    var q1 := q.(asn := remote.asn, twoBytes := false);
    var q2 := if remote.mp == [] then q1 else q1.(mp := c.mp + [remote.mp[|remote.mp| - 1]]);
    assert ApplyCapabilities(c, q, first) == Some(q1);
    ApplyCapabilitiesConcat(c, q, first, mps);
    ApplyFamilies(c, q1, remote.mp);
    assert ApplyCapabilities(c, q, first + mps) == Some(q2);
    ApplyCapabilitiesConcat(c, q, first + mps, third);
    ApplyCapabilitiesConcat(c, q, first + mps + third, fourth);
    OneParameter(c, q, open.parameters[0].data.value);
  }

  lemma OneParameter(c: Config, p: Peer, l: seq<O.Capability>)
    ensures ApplyParameters(c, p, [O.Parameter(O.PARAMETER_CAPA, Some(l))]) == ApplyCapabilities(c, p, l)
  {
  }

  /** Two neighbors made with add-path on send IPv4 to each other with path identifiers. */
  lemma DefaultListsAgree()
    ensures Compare(DEFAULT_ADD_PATHS, DEFAULT_ADD_PATHS).Some?
    ensures Nlri.AfiSafi(Nlri.AFI_IPV4, Nlri.SAFI_UNICAST) in Compare(DEFAULT_ADD_PATHS, DEFAULT_ADD_PATHS).value.0
  {
    var l := DEFAULT_ADD_PATHS;
    CompareMeaning(l, l, 0);
    assert Family(l[0]) == Nlri.AfiSafi(Nlri.AFI_IPV4, Nlri.SAFI_UNICAST) && AddsSend(l, l, 0);
  }

  /** A peer without capabilities: its two-octet ASN is all there is, ASNs are read in two octets, and nothing else changes. */
  lemma {:induction false} ApplyOldOpen(c: Config, p: Peer, open: O.Open)
    requires forall q | q in open.parameters :: q.ptype != 2
    ensures ApplyOpen(c, p, open) == Some(p.(asn := open.asn, identifier := open.identifier, twoBytes := true))
  {
    OtherParameters(c, p.(asn := open.asn, identifier := open.identifier, twoBytes := true), open.parameters);
  }

  lemma {:induction false} OtherParameters(c: Config, p: Peer, l: seq<O.Parameter>)
    requires forall q | q in l :: q.ptype != 2
    ensures ApplyParameters(c, p, l) == Some(p)
    decreases |l|
  {
    if l != [] {
      OtherParameters(c, p, l[1..]);
    }
  }

  /** A capability parameter without capabilities is a fault, whatever stands around it; no OPEN that was parsed has one. */
  lemma {:induction false} BareParameterFaults(c: Config, p: Peer, l: seq<O.Parameter>)
    requires O.Parameter(2, None) in l
    ensures ApplyParameters(c, p, l) == None
    decreases |l|
  {
    if l[0].ptype != 2 {
      BareParameterFaults(c, p, l[1..]);
    } else if l[0].data.Some? && ApplyCapabilities(c, p, l[0].data.value).Some? {
      BareParameterFaults(c, ApplyCapabilities(c, p, l[0].data.value).value, l[1..]);
    }
  }

  /** Each capability changes what it is about and nothing else, in an OPEN with any number of them. */
  lemma ApplyOneCapability(c: Config, p: Peer, afi: u16, safi: byte, asn: u32, ctype: byte, d: seq<byte>, l: seq<O.AddPath>)
    ensures ApplyCapability(c, p, O.MP(afi, safi)) == Some(p.(mp := c.mp + [Nlri.AfiSafi(afi, safi)]))
    ensures ApplyCapability(c, p, O.ASN(asn)) == Some(p.(asn := asn, twoBytes := false))
    ensures ApplyCapability(c, p, O.RouteRefresh) == Some(p.(routeRefresh := true))
    ensures ApplyCapability(c, p, O.Other(ctype, d)) == Some(p)
    ensures ApplyCapability(c, p, O.AddPaths(l)).Some? <==> Compare(c.addPaths, l).Some?
    ensures Compare(c.addPaths, l).Some? ==> var (send, decode) := Compare(c.addPaths, l).value;
      ApplyCapability(c, p, O.AddPaths(l)) == Some(p.(addPaths := l, send := send, decode := decode))
  {
  }

  // ---------------------------------------------------------------- two peers

  predicate Sound(c: Config) {
    IsIPv4(c.identifier) && Directions(c.addPaths)
    && |O.EncodeCapabilities(O.CraftedCapabilities(c.asn, c.mp, c.addPaths, c.routeRefresh))| <= 253
  }

  /** The peer view `c` has after the OPEN of `remote` was written, sent, parsed and applied, when it was `p` before. */
  function Exchange(c: Config, p: Peer, remote: Config, holdTime: u16): Option<Peer>
    requires IsIPv4(remote.identifier)
  {
    match O.ParseOpen(O.EncodeBody(Announce(remote, holdTime)))
    case Err(_) => None
    case Ok(open) => ApplyOpen(c, p, open)
  }

  lemma ExchangeIsApply(c: Config, p: Peer, remote: Config, holdTime: u16)
    requires Sound(remote)
    ensures O.ParseOpen(O.EncodeBody(Announce(remote, holdTime))) == Ok(Announce(remote, holdTime))
    ensures Exchange(c, p, remote, holdTime) == ApplyOpen(c, p, Announce(remote, holdTime))
  {
    O.CraftedFits(remote.asn, holdTime, To4(remote.identifier), remote.mp, remote.addPaths, remote.routeRefresh);
    O.OpenRoundTrip(Announce(remote, holdTime));
  }

  /** What one end derives, whatever it knew before: the peer's full ASN, the four-octet codec, and the modes; or it faults. */
  lemma ExchangeGivesModes(c: Config, p: Peer, remote: Config, holdTime: u16)
    requires Sound(remote)
    ensures Exchange(c, p, remote, holdTime).None? <==> Modes(c, p, remote).None?
    ensures var r := Exchange(c, p, remote, holdTime);
      r.Some? ==> r.value.asn == remote.asn && !r.value.twoBytes && Some((r.value.send, r.value.decode)) == Modes(c, p, remote)
  {
    hide O.ParseOpen, O.EncodeBody, ApplyOpen, Exchange, Announce;
    ExchangeIsApply(c, p, remote, holdTime);
    ApplyCrafted(c, p, remote, holdTime);
  }

  /** If add-path was announced, the families agreed on in both directions replace what was known before. */
  lemma ExchangeGivesAgreed(c: Config, p: Peer, remote: Config, holdTime: u16)
    requires Sound(c) && Sound(remote) && Aligned(c.addPaths, remote.addPaths)
    ensures var r := Exchange(c, p, remote, holdTime);
      && r.Some? && r.value.asn == remote.asn && !r.value.twoBytes
      && (remote.addPaths == [] ==> r.value.send == p.send && r.value.decode == p.decode)
      && (remote.addPaths != [] ==> forall x :: x in r.value.send <==> Agreed(c.addPaths, remote.addPaths, x))
      && (remote.addPaths != [] ==> forall x :: x in r.value.decode <==> Agreed(remote.addPaths, c.addPaths, x))
  {
    hide Exchange;
    ExchangeGivesModes(c, p, remote, holdTime);
    AlignedMeansAgreed(c.addPaths, remote.addPaths);
  }

  ghost predicate SameFamilies(l: Families, m: Families) {
    forall x :: x in l <==> x in m
  }

  /**
    What the views `p` of `a` and `q` of `b` from before must meet for `a` to send what `b` decodes: an end to which no
    add-path is announced keeps its modes, and an end without a list of its own empties them.
   */
  ghost predicate CarriedMatch(a: Config, p: Peer, b: Config, q: Peer) {
    if a.addPaths == [] && b.addPaths == [] then SameFamilies(p.send, q.decode)
    else (b.addPaths == [] ==> p.send == []) && (a.addPaths == [] ==> q.decode == [])
  }

  /** The two lists agree on every family whose routes can be decoded. */
  ghost predicate SameKnown(l: Families, m: Families) {
    forall x: Nlri.AfiSafi | Nlri.KnownAfi(x.afi) :: x in l <==> x in m
  }

  /** `CarriedMatch`, for the families whose routes can be decoded. */
  ghost predicate CarriedRoutesMatch(a: Config, p: Peer, b: Config, q: Peer) {
    if a.addPaths == [] && b.addPaths == [] then SameKnown(p.send, q.decode)
    else (b.addPaths == [] ==> SameKnown(p.send, [])) && (a.addPaths == [] ==> SameKnown([], q.decode))
  }

  lemma NothingToCompare(l: seq<O.AddPath>)
    ensures Compare([], l) == Some(([], []))
  {
  }

  /**
    Two peers exchange OPENs, whatever each knew before. What `a` then sends with path identifiers is what `b` decodes
    with them exactly when the modes kept from before match and, for each pair of entries that passes the `== 3` test,
    the two ends test the same directions.
   */
  lemma ModesMatchIff(a: Config, p: Peer, b: Config, q: Peer, holdA: u16, holdB: u16)
    requires Sound(a) && Sound(b) && Distinct(a.addPaths) && Distinct(b.addPaths)
    requires Exchange(a, p, b, holdB).Some? && Exchange(b, q, a, holdA).Some?
    ensures SameFamilies(Exchange(a, p, b, holdB).value.send, Exchange(b, q, a, holdA).value.decode)
      <==> CarriedMatch(a, p, b, q)
           && forall i: nat, j: nat :: Paired(a.addPaths, b.addPaths, i, j) ==> TestsAgree(a.addPaths, b.addPaths, i, j)
  {
    hide Exchange, Compare;
    ExchangeGivesModes(a, p, b, holdB);
    ExchangeGivesModes(b, q, a, holdA);
    if a.addPaths != [] && b.addPaths != [] {
      SendMatchesDecodeIff(a.addPaths, b.addPaths);
    } else {
      NothingToCompare(a.addPaths);
      NothingToCompare(b.addPaths);
      EmptyFamilies(p.send);
      EmptyFamilies(q.decode);
    }
  }

  lemma EmptyFamilies(l: Families)
    ensures SameFamilies(l, []) <==> l == []
    ensures SameFamilies([], l) <==> l == []
  {
    if l != [] {
      assert l[0] in l;
    }
  }

  /**
    With aligned lists neither end faults, both learn the full ASN, and their modes match in each direction exactly
    when those kept from before do. Two new neighbors always match, and so do any two that both announce add-path.
   */
  lemma PeersAgree(a: Config, p: Peer, b: Config, q: Peer, holdA: u16, holdB: u16)
    requires Sound(a) && Sound(b) && Aligned(a.addPaths, b.addPaths)
    ensures var (ra, rb) := (Exchange(a, p, b, holdB), Exchange(b, q, a, holdA));
      && ra.Some? && rb.Some?
      && ra.value.asn == b.asn && rb.value.asn == a.asn
      && !ra.value.twoBytes && !rb.value.twoBytes
      && (SameFamilies(ra.value.send, rb.value.decode) <==> CarriedMatch(a, p, b, q))
      && (SameFamilies(rb.value.send, ra.value.decode) <==> CarriedMatch(b, q, a, p))
    ensures p.send == [] && q.decode == [] ==> CarriedMatch(a, p, b, q)
    ensures a.addPaths != [] && b.addPaths != [] ==> CarriedMatch(a, p, b, q)
  {
    hide Exchange, Compare, Sound;
    OneDirection(a, p, b, q, holdA, holdB);
    OneDirection(b, q, a, p, holdB, holdA);
  }

  lemma OneDirection(a: Config, p: Peer, b: Config, q: Peer, holdA: u16, holdB: u16)
    requires Sound(a) && Sound(b) && Aligned(a.addPaths, b.addPaths)
    ensures var (ra, rb) := (Exchange(a, p, b, holdB), Exchange(b, q, a, holdA));
      && ra.Some? && rb.Some? && ra.value.asn == b.asn && !ra.value.twoBytes
      && (SameFamilies(ra.value.send, rb.value.decode) <==> CarriedMatch(a, p, b, q))
      && (SameKnown(ra.value.send, rb.value.decode) <==> CarriedRoutesMatch(a, p, b, q))
  {
    hide Exchange, Compare, Agreed;
    ExchangeGivesModes(a, p, b, holdB);
    ExchangeGivesModes(b, q, a, holdA);
    AlignedMeansAgreed(a.addPaths, b.addPaths);
    AlignedMeansAgreed(b.addPaths, a.addPaths);
    NothingToCompare(a.addPaths);
    NothingToCompare(b.addPaths);
    EmptyFamilies(p.send);
    EmptyFamilies(q.decode);
  }

  /**
    Modes outlive the session. A neighbor that agreed on add-path, and whose peer comes back without it, still sends
    with path identifiers, which the peer does not decode.
   */
  lemma StaleModes(a: Config, p: Peer, b: Config, x: Nlri.AfiSafi, holdA: u16, holdB: u16)
    requires Sound(a) && Sound(b) && b.addPaths == [] && x in p.send
    ensures Exchange(a, p, b, holdB).Some? && Exchange(b, NEW_PEER, a, holdA).Some?
    ensures x in Exchange(a, p, b, holdB).value.send && x !in Exchange(b, NEW_PEER, a, holdA).value.decode
  {
    hide Exchange, Compare;
    ExchangeGivesModes(a, p, b, holdB);
    ExchangeGivesModes(b, NEW_PEER, a, holdA);
    NothingToCompare(a.addPaths);
  }

  // ---------------------------------------------------------------- updates between the two

  lemma SameModesSameEncodable(u: U.Update, l: Families, m: Families)
    requires SameFamilies(l, m) && U.Encodable(u, l, false)
    ensures U.Encodable(u, m, false)
  {
    forall a | a in u.attributes ensures AttributeProofs.Encodable(a, m, false) {
      assert AttributeProofs.Encodable(a, l, false);
    }
  }

  /** The prefixes and path identifiers of an attribute of a known family are the same. */
  predicate SamePrefixes(a: A.Attribute, b: A.Attribute) {
    && (a.MpReach? ==> b.MpReach? && a.afi == b.afi && a.safi == b.safi && (Nlri.KnownAfi(a.afi) ==> a.reach == b.reach))
    && (a.MpUnreach? ==> b.MpUnreach? && a.afi == b.afi && a.safi == b.safi && (Nlri.KnownAfi(a.afi) ==> a.unreach == b.unreach))
  }

  /** What a peer with the modes `decode` reads has every withdrawn route and every route of the update, path identifiers included. */
  predicate RoutesCross(u: U.Update, decode: Families)
    requires U.Writable(u)
  {
    var r := U.ParseUpdate(U.EncodeBody(u), decode, false);
    && r.err.None? && r.update.Some?
    && r.update.value.withdrawn == u.withdrawn && r.update.value.nlri == u.nlri
    && |r.update.value.attributes| == |u.attributes|
    && forall i :: 0 <= i < |u.attributes| ==> SamePrefixes(u.attributes[i], r.update.value.attributes[i])
  }

  /** Modes that agree on the families the decoder knows decode data to the same routes. */
  lemma DataCrosses(flags: byte, code: byte, d: seq<byte>, l: Families, m: Families)
    requires SameKnown(l, m) && A.DecodeData(flags, code, d, l, false).Ok?
    ensures var r := A.DecodeData(flags, code, d, m, false);
      r.Ok? && SamePrefixes(A.DecodeData(flags, code, d, l, false).value, r.value)
  {
    hide A.DecodeU32s, A.DecodeLarges, AsPath.Parse;
  }

  lemma AttributeCrosses(a: A.Attribute, t: seq<byte>, send: Families, decode: Families) returns (b: A.Attribute)
    requires AttributeProofs.Encodable(a, send, false) && SameKnown(send, decode)
    ensures A.Next(A.Encode(a) + t, decode, false) == A.Take(b, |A.Encode(a)|) && (A.Encode(a) + t)[|A.Encode(a)|..] == t
    ensures SamePrefixes(a, b)
  {
    hide A.DecodeData, A.Content, A.Encode;
    var (flags, code, d) := (A.HeaderFlags(A.FlagsOf(a), A.DeclaredSize(a)), A.CodeOf(a), A.Content(a));
    AttributeProofs.ContentRoundTrip(a, send, false);
    DataCrosses(flags, code, d, send, decode);
    AttributeProofs.EncodableSize(a, send, false);
    AttributeProofs.FramedTurn(a, t, decode, false);
    SplitConcat(A.Encode(a), t);
    b := A.DecodeData(flags, code, d, decode, false).value;
  }

  lemma {:induction false} AttributesCross(l: seq<A.Attribute>, send: Families, decode: Families)
    requires AttributeProofs.AllEncodable(l, send, false) && SameKnown(send, decode)
    ensures A.AllWritable(l)
    ensures var r := A.Parse(A.EncodeAll(l), decode, false);
      && r.err.None? && |r.attributes| == |l| && forall i :: 0 <= i < |l| ==> SamePrefixes(l[i], r.attributes[i])
  {
    hide A.Encode, AttributeProofs.Encodable, SamePrefixes, SameKnown, A.Next;
    if l != [] {
      AttributeProofs.EncodableSize(l[0], send, false);
      AttributesCross(l[1..], send, decode);
      var t := A.EncodeAll(l[1..]);
      var b := AttributeCrosses(l[0], t, send, decode);
      assert A.Encode(l[0]) + t != [];
      assert A.Parse(A.Encode(l[0]) + t, decode, false) == A.Resume([b], A.Parse(t, decode, false));
    }
  }

  lemma UpdateRoutesCross(u: U.Update, send: Families, decode: Families)
    requires U.Encodable(u, send, false) && SameKnown(send, decode)
    ensures U.Writable(u) && RoutesCross(u, decode)
  {
    hide U.ParseUpdate, U.EncodeBody, A.Parse, A.EncodeAll, Nlri.Parse, Nlri.EncodeList, SamePrefixes;
    var e := A.EncodeAll(u.attributes);
    assert A.InAfiSafi(Nlri.AFI_IPV4, Nlri.SAFI_UNICAST, decode) == u.addPath;
    Nlri.ParseInvertsEncode(u.withdrawn, Nlri.AFI_IPV4, u.addPath);
    Nlri.ParseInvertsEncode(u.nlri, Nlri.AFI_IPV4, u.addPath);
    AttributesCross(u.attributes, send, decode);
    U.EncodableIdsComplete(u, send, false);
    U.BodyCounts(u);
    U.BodyTurn(Nlri.EncodeList(u.withdrawn, u.addPath), BE16(|e|) + e + Nlri.EncodeList(u.nlri, u.addPath), decode, false);
    U.RestTurn(e, Nlri.EncodeList(u.nlri, u.addPath), u.withdrawn, decode, u.addPath, false);
  }

  /** The update carries a path identifier for the family `x`. */
  predicate Carries(u: U.Update, x: Nlri.AfiSafi) {
    || (x == Nlri.AfiSafi(Nlri.AFI_IPV4, Nlri.SAFI_UNICAST) && exists n | n in u.withdrawn + u.nlri :: n.pathId != 0)
    || (exists a | a in u.attributes :: a.MpReach? && Nlri.AfiSafi(a.afi, a.safi) == x && exists n | n in a.reach :: n.pathId != 0)
    || (exists a | a in u.attributes :: a.MpUnreach? && Nlri.AfiSafi(a.afi, a.safi) == x && exists n | n in a.unreach :: n.pathId != 0)
  }

  /** The routes a peer reads without path identifiers have none. */
  lemma ReadWithout(u: U.Update, b: seq<byte>, decode: Families, x: Nlri.AfiSafi)
    requires U.ParseUpdate(b, decode, false).err.None? && U.ParseUpdate(b, decode, false).update == Some(u)
    requires Nlri.KnownAfi(x.afi) && x !in decode
    ensures !Carries(u, x)
  {
    hide U.ParseUpdate, Nlri.Parse, A.Parse;
    var w, a, n := U.AcceptedBody(b, decode, false);
    U.AcceptedParts(w, a, n, decode, false);
    var path := A.InAfiSafi(Nlri.AFI_IPV4, Nlri.SAFI_UNICAST, decode);
    Nlri.ParseCanonical(w, Nlri.AFI_IPV4, path);
    Nlri.ParseCanonical(n, Nlri.AFI_IPV4, path);
    AttributeProofs.ParsedIsRegular(a, decode, false);
  }

  /**
    Where path identifiers are in use they are lost: an update that carries one, for a family that the peer knows but
    decodes without them, never arrives with its routes.
   */
  lemma LostPathIds(u: U.Update, decode: Families, x: Nlri.AfiSafi)
    requires U.Writable(u) && Nlri.KnownAfi(x.afi) && x !in decode && Carries(u, x)
    ensures !RoutesCross(u, decode)
  {
    hide U.ParseUpdate, U.EncodeBody;
    if RoutesCross(u, decode) {
      var v := U.ParseUpdate(U.EncodeBody(u), decode, false).update.value;
      ReadWithout(v, U.EncodeBody(u), decode, x);
      forall a | a in u.attributes ensures exists b | b in v.attributes :: SamePrefixes(a, b) {
        var i :| 0 <= i < |u.attributes| && u.attributes[i] == a;
        assert v.attributes[i] in v.attributes;
      }
    }
  }

  /** The default route of a family, with a path identifier if the family is sent with them. */
  function DefaultRoute(x: Nlri.AfiSafi, send: Families): Nlri.Prefix {
    var size := Nlri.AddressSize(x.afi);
    Nlri.Prefix(Zeros(size), Nlri.Mask(0, size), if x in send then 1 else 0)
  }

  function Probe(x: Nlri.AfiSafi, send: Families): U.Update {
    U.Update([], [A.MpReach(x.afi, x.safi, [], [DefaultRoute(x, send)], x in send)], [],
             A.InAfiSafi(Nlri.AFI_IPV4, Nlri.SAFI_UNICAST, send))
  }

  /** For a known family on which the modes differ, an update that announces its default route loses it. */
  lemma DefaultRouteIsLost(x: Nlri.AfiSafi, send: Families, decode: Families)
    requires Nlri.KnownAfi(x.afi) && (x in send) != (x in decode)
    ensures U.Encodable(Probe(x, send), send, false) && !RoutesCross(Probe(x, send), decode)
  {
    hide U.ParseUpdate, U.EncodeBody, RoutesCross;
    var u := Probe(x, send);
    ProbeFits(x, send);
    if x in send {
      assert u.attributes[0] in u.attributes && DefaultRoute(x, send) in u.attributes[0].reach;
      LostPathIds(u, decode, x);
    } else {
      ShortProbe(x, send, decode);
    }
  }

  lemma ProbeFits(x: Nlri.AfiSafi, send: Families)
    requires Nlri.KnownAfi(x.afi)
    ensures U.Encodable(Probe(x, send), send, false)
    ensures var a := Probe(x, send).attributes[0];
      |A.Content(a)| == (if x in send then 10 else 6) && A.EncodeAll([a]) == A.Encode(a) && AttributeProofs.Encodable(a, send, false)
  {
    hide Nlri.Encode, DefaultRoute, Nlri.Canonical;
    RouteFits(x, send);
    var a := Probe(x, send).attributes[0];
    assert Nlri.EncodeList(a.reach, x in send) == Nlri.Encode(a.reach[0], x in send) + Nlri.EncodeList(a.reach[1..], x in send);
    assert A.EncodeAll([a]) == A.Encode(a) + A.EncodeAll([a][1..]);
    assert AttributeProofs.Encodable(a, send, false);
    AttributeProofs.EncodableSize(a, send, false);
  }

  lemma RouteFits(x: Nlri.AfiSafi, send: Families)
    requires Nlri.KnownAfi(x.afi)
    ensures var n := DefaultRoute(x, send);
      Nlri.Writable(n) && Nlri.Canonical(n, Nlri.AddressSize(x.afi), x in send) && |Nlri.Encode(n, x in send)| == if x in send then 5 else 1
  {
    var n := DefaultRoute(x, send);
    Nlri.MaskSizeInverts(0, Nlri.AddressSize(x.afi));
    assert Nlri.SplitLen(n) == 0 && n.ip[0..] == Zeros(Nlri.AddressSize(x.afi));
  }

  /** The octets of the default route without a path identifier are too few for one with it. */
  lemma ShortProbe(x: Nlri.AfiSafi, send: Families, decode: Families)
    requires Nlri.KnownAfi(x.afi) && x !in send && x in decode
    ensures U.Encodable(Probe(x, send), send, false) && !RoutesCross(Probe(x, send), decode)
  {
    hide U.ParseUpdate, U.EncodeBody, A.Encode, A.EncodeAll, A.DecodeReach, A.Content, DefaultRoute;
    var u := Probe(x, send);
    var a := u.attributes[0];
    ProbeFits(x, send);
    if RoutesCross(u, decode) {
      U.EncodableIdsComplete(u, send, false);
      U.BodyCounts(u);
      U.AcceptedParts([], A.Encode(a), [], decode, false);
      AttributeProofs.EncodableSize(a, send, false);
      AttributeProofs.AloneTurn(a, decode, false);
      ProbeGrows(a, U.ParseUpdate(U.EncodeBody(u), decode, false).update.value.attributes[0], decode);
    }
  }

  lemma ProbeGrows(a: A.Attribute, b: A.Attribute, decode: Families)
    requires a.MpReach? && A.Writable(a) && A.DecodeReach(A.Content(a), decode) == Ok(b) && |a.reach| == 1
    requires A.InAfiSafi(b.afi, b.safi, decode)
    ensures |A.Content(a)| < 10 ==> b.reach != a.reach
  {
    AttributeProofs.DecodedReachIsRegular(A.Content(a), decode, false);
    if b.reach == a.reach {
      assert Nlri.EncodeList(b.reach, true) == Nlri.Encode(b.reach[0], true) + Nlri.EncodeList(b.reach[1..], true);
    }
  }

  /** Every update arrives with all its routes exactly when the modes agree on the families the decoder knows. */
  lemma AllCrossIff(send: Families, decode: Families)
    ensures (forall u | U.Encodable(u, send, false) :: RoutesCross(u, decode)) <==> SameKnown(send, decode)
  {
    hide U.Encodable, RoutesCross;
    if SameKnown(send, decode) {
      forall u | U.Encodable(u, send, false) ensures U.Writable(u) && RoutesCross(u, decode) {
        UpdateRoutesCross(u, send, decode);
      }
    } else {
      var x: Nlri.AfiSafi :| Nlri.KnownAfi(x.afi) && (x in send) != (x in decode);
      DefaultRouteIsLost(x, send, decode);
    }
  }

  /**
    After the two OPENs, whatever was known before: every update `a` writes under the modes it derived arrives with all
    its routes at `b`, under those `b` derived, exactly when the modes kept from before match.
   */
  lemma UpdatesCrossIff(a: Config, p: Peer, b: Config, q: Peer, holdA: u16, holdB: u16)
    requires Sound(a) && Sound(b) && Aligned(a.addPaths, b.addPaths)
    ensures Exchange(a, p, b, holdB).Some? && Exchange(b, q, a, holdA).Some?
    ensures (forall u | U.Encodable(u, Exchange(a, p, b, holdB).value.send, false) :: RoutesCross(u, Exchange(b, q, a, holdA).value.decode))
      <==> CarriedRoutesMatch(a, p, b, q)
  {
    hide Exchange, CarriedMatch, CarriedRoutesMatch, RoutesCross, U.Encodable;
    PeersAgree(a, p, b, q, holdA, holdB);
    OneDirection(a, p, b, q, holdA, holdB);
    AllCrossIff(Exchange(a, p, b, holdB).value.send, Exchange(b, q, a, holdA).value.decode);
  }

  /** With the same modes also for families the decoder does not know, an update is read in normal form as a whole. */
  lemma UpdateCrosses(a: Config, p: Peer, b: Config, q: Peer, holdA: u16, holdB: u16, u: U.Update)
    requires Sound(a) && Sound(b) && Aligned(a.addPaths, b.addPaths) && CarriedMatch(a, p, b, q)
    requires Exchange(a, p, b, holdB).Some? ==> U.Encodable(u, Exchange(a, p, b, holdB).value.send, false)
    ensures Exchange(b, q, a, holdA).Some? && U.Writable(u)
    ensures var peer := Exchange(b, q, a, holdA).value;
      && U.ParseUpdate(U.EncodeBody(u), peer.decode, peer.twoBytes) == U.UpdateResult(Some(U.Norm(u, false)), None)
      && RoutesCross(u, peer.decode)
  {
    hide Exchange, CarriedMatch, CarriedRoutesMatch, U.ParseUpdate, U.EncodeBody;
    PeersAgree(a, p, b, q, holdA, holdB);
    var (send, decode) := (Exchange(a, p, b, holdB).value.send, Exchange(b, q, a, holdA).value.decode);
    SameModesSameEncodable(u, send, decode);
    U.UpdateRoundTrip(u, decode, false);
    NormSamePrefixes(u);
  }

  lemma NormSamePrefixes(u: U.Update)
    ensures var n := U.Norm(u, false);
      && n.withdrawn == u.withdrawn && n.nlri == u.nlri && |n.attributes| == |u.attributes|
      && forall i :: 0 <= i < |u.attributes| ==> SamePrefixes(u.attributes[i], n.attributes[i])
  {
  }
}
