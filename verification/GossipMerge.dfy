/** Versions and the merge of two states of one node (internal/cluster/gossip/gossip.go). */
module GossipMerge {
  import opened Common
  import opened ClusterNodes
  import StringOrder

  // ---- version strings ---------------------------------------------------------------

  function TrimPrefix(s: string, prefix: string): string {
    if prefix <= s then s[|prefix|..] else s
  }

  predicate AllDigits(s: string) {
    forall i :: 0 <= i < |s| ==> '0' <= s[i] <= '9'
  }

  function DigitsValue(s: string): nat
    requires AllDigits(s)
  {
    if s == [] then 0
    else 10 * DigitsValue(s[..|s| - 1]) + (s[|s| - 1] as int - '0' as int)
  }

  const MAX_INT64 := 0x7fff_ffff_ffff_ffff
  const MIN_INT64 := -0x8000_0000_0000_0000

  /** strconv.ParseInt in base 10 with 64 bits: an optional sign, at least one digit, and no overflow. */
  function ParseInt64(s: string): Option<int> {
    var negative := s != [] && s[0] == '-';
    var digits := if s != [] && (s[0] == '-' || s[0] == '+') then s[1..] else s;
    if digits == [] || !AllDigits(digits) then None
    else
      var n: int := if negative then 0 - DigitsValue(digits) else DigitsValue(digits);
      if MIN_INT64 <= n <= MAX_INT64 then Some(n) else None
  }

  function ParseVersion(v: string): Option<int> {
    ParseInt64(TrimPrefix(TrimPrefix(v, "cluster/"), "v"))
  }

  function CompareVersions(v1: string, v2: string): int {
    if v1 == v2 then 0
    else if v1 == "" then -1
    else if v2 == "" then 1
    else
      var n1, n2 := ParseVersion(v1), ParseVersion(v2);
      if n1.Some? && n2.Some? then
        if n1.value > n2.value then 1 else if n1.value < n2.value then -1 else 0
      else StringOrder.Compare(v1, v2)
  }

  /** Comparing two versions the other way round gives the opposite answer, whatever the strings. */
  lemma CompareVersionsAntisymmetric(v1: string, v2: string)
    ensures CompareVersions(v1, v2) == -CompareVersions(v2, v1)
  {
    StringOrder.CompareAntisymmetric(v1, v2);
  }

  /** With numeric and other versions mixed, the comparison has cycles. */
  lemma CompareVersionsHasCycles()
    ensures CompareVersions("10", "9") > 0 && CompareVersions("9", "1x") > 0 && CompareVersions("1x", "10") > 0
  {
    assert ParseVersion("10") == Some(10) by {
      assert "10"[..1] == "1" && "1"[..0] == "";
      assert AllDigits("1") && DigitsValue("1") == 1;
      assert AllDigits("10");
    }
    assert ParseVersion("9") == Some(9) by {
      assert "9"[..0] == "";
    }
    assert ParseVersion("1x") == None by {
      assert "1x"[1] == 'x';
    }
    assert "1x"[1..] == "x" && "10"[1..] == "0";
    assert StringOrder.Less("0", "x");
    assert StringOrder.Less("10", "1x");
    StringOrder.Asymmetric("10", "1x");
    StringOrder.Asymmetric("1x", "9");
  }

  // ---- numbered versions -----------------------------------------------------------------

  /** The decimal representation of a number. */
  function Decimal(n: nat): (s: string)
    ensures s != "" && '0' <= s[0] <= '9'
  {
    if n < 10 then [(n + 48) as char] else Decimal(n / 10) + [(n % 10 + 48) as char]
  }

  lemma {:induction false} DecimalHasValue(n: nat)
    ensures AllDigits(Decimal(n)) && DigitsValue(Decimal(n)) == n
  {
    if n >= 10 {
      DecimalHasValue(n / 10);
      var last := (n % 10 + 48) as char;
      assert (Decimal(n / 10) + [last])[..|Decimal(n / 10)|] == Decimal(n / 10);
    } else {
      assert Decimal(n)[..0] == [];
    }
  }

  /** The ways to write a numbered version. */
  const PREFIXES: set<string> := {"", "v", "cluster/", "cluster/v"}

  lemma TrimmedPrefix(prefix: string, s: string)
    requires prefix in PREFIXES && s != "" && s[0] != 'c' && s[0] != 'v'
    ensures TrimPrefix(TrimPrefix(prefix + s, "cluster/"), "v") == s
  {
    var v := prefix + s;
    if prefix == "" {
      assert v == s && v[0] != 'c' && v[0] != 'v';
    } else if prefix == "v" {
      assert v[0] == 'v' && v[1..] == s;
    } else if prefix == "cluster/" {
      assert v[..8] == "cluster/" && v[8..] == s && s[0] != 'v';
    } else {
      assert v[..8] == "cluster/" && v[8..] == "v" + s;
      assert ("v" + s)[1..] == s;
    }
  }

  lemma ParsedDecimal(n: nat)
    ensures ParseInt64(Decimal(n)) == if n < 0x8000_0000_0000_0000 then Some(n) else None
  {
    DecimalHasValue(n);
  }

  lemma ParsedNegative(n: nat)
    ensures ParseInt64("-" + Decimal(n)) == if n <= 0x8000_0000_0000_0000 then Some(0 - n as int) else None
  {
    DecimalHasValue(n);
    assert ("-" + Decimal(n))[1..] == Decimal(n);
  }

  /** A number is read from its decimal representation behind any of the prefixes, as far as 64 bits reach. */
  lemma NumberedVersion(prefix: string, n: nat)
    requires prefix in PREFIXES
    ensures ParseVersion(prefix + Decimal(n)) == if n < 0x8000_0000_0000_0000 then Some(n) else None
  {
    TrimmedPrefix(prefix, Decimal(n));
    ParsedDecimal(n);
    hide ParseInt64;
    hide TrimPrefix;
  }

  /** And so is a negative one. */
  lemma NegativeVersion(prefix: string, n: nat)
    requires prefix in PREFIXES
    ensures ParseVersion(prefix + ("-" + Decimal(n))) == if n <= 0x8000_0000_0000_0000 then Some(0 - n as int) else None
  {
    TrimmedPrefix(prefix, "-" + Decimal(n));
    ParsedNegative(n);
    hide ParseInt64;
    hide TrimPrefix;
  }

  /** A version with a character other than a digit is no number. */
  lemma OtherVersionsAreNotNumbers(v: string, i: nat)
    requires 0 < i < |v| && v[0] != 'c' && v[0] != 'v' && !('0' <= v[i] <= '9')
    ensures ParseVersion(v) == None
  {
    assert TrimPrefix(TrimPrefix(v, "cluster/"), "v") == v;
    assert v[1..][i - 1] == v[i];
  }

  /** So numbered versions compare as numbers, however each is written: 10 is above 9. */
  lemma NumberedVersionsCompare(p: string, m: nat, q: string, n: nat)
    requires p in PREFIXES && q in PREFIXES && m < 0x8000_0000_0000_0000 && n < 0x8000_0000_0000_0000
    ensures CompareVersions(p + Decimal(m), q + Decimal(n)) == if m > n then 1 else if m < n then -1 else 0
    ensures CompareVersions("", q + Decimal(n)) == -1
  {
    NumberedVersion(p, m);
    NumberedVersion(q, n);
  }

  /** Versions that are empty or parse as numbers. */
  predicate Ranked(v: string) {
    v == "" || ParseVersion(v).Some?
  }

  /** The rank of a version, with the empty one below every number. */
  function Rank(v: string): Option<int> {
    if v == "" then None else ParseVersion(v)
  }

  function CompareRanks(a: Option<int>, b: Option<int>): int {
    if a.None? && b.None? then 0
    else if a.None? then -1
    else if b.None? then 1
    else if a.value > b.value then 1 else if a.value < b.value then -1 else 0
  }

  lemma RankedCompare(v1: string, v2: string)
    requires Ranked(v1) && Ranked(v2)
    ensures CompareVersions(v1, v2) == CompareRanks(Rank(v1), Rank(v2))
  {
  }

  // ---- where the comparison is an order --------------------------------------------------

  predicate Numeric(v: string) {
    ParseVersion(v).Some?
  }

  /** A version that is no number lies between two numbers as strings, which do not ascend as numbers. */
  predicate Crossing(a: string, x: string, b: string) {
    && Numeric(a) && Numeric(b) && !Numeric(x) && x != ""
    && StringOrder.Less(a, x) && StringOrder.Less(x, b)
    && ParseVersion(a).value >= ParseVersion(b).value
  }

  ghost predicate Uncrossed(versions: set<string>) {
    forall a, x, b :: a in versions && x in versions && b in versions ==> !Crossing(a, x, b)
  }

  ghost predicate Ordered(versions: set<string>) {
    forall u, v, w {:trigger CompareVersions(u, v), CompareVersions(v, w)} ::
      u in versions && v in versions && w in versions && CompareVersions(u, v) >= 0 && CompareVersions(v, w) >= 0 ==>
        CompareVersions(u, w) >= 0
  }

  lemma EmptyIsNotNumeric()
    ensures !Numeric("")
  {
  }

  lemma ComparesAsString(u: string, v: string)
    requires u != "" && v != "" && !(Numeric(u) && Numeric(v))
    ensures CompareVersions(u, v) >= 0 <==> u == v || StringOrder.Less(v, u)
  {
    StringOrder.Total(u, v);
    if StringOrder.Less(u, v) {
      StringOrder.Asymmetric(u, v);
    }
  }

  lemma ComparesAsNumber(u: string, v: string)
    requires Numeric(u) && Numeric(v)
    ensures CompareVersions(u, v) >= 0 <==> ParseVersion(u).value >= ParseVersion(v).value
  {
    EmptyIsNotNumeric();
  }

  lemma OrderedTriple(u: string, v: string, w: string)
    requires CompareVersions(u, v) >= 0 && CompareVersions(v, w) >= 0
    requires !Crossing(w, v, u) && !Crossing(v, u, w) && !Crossing(u, w, v)
    requires !Crossing(v, w, u) && !Crossing(w, u, v) && !Crossing(u, v, w)
    ensures CompareVersions(u, w) >= 0
  {
    EmptyIsNotNumeric();
    if u != "" && v != "" && w != "" && CompareVersions(u, w) < 0 {
      StringComparisons(u, v);
      StringComparisons(v, w);
      StringComparisons(u, w);
      if u != v && v != w && StringOrder.Less(v, u) && StringOrder.Less(w, v) {
        StringOrder.Transitive(w, v, u);
      }
      StringOrder.Total(u, v);
      StringOrder.Total(v, w);
      StringOrder.Total(u, w);
    }
  }

  lemma StringComparisons(u: string, v: string)
    requires u != "" && v != ""
    ensures Numeric(u) && Numeric(v) ==>
              (CompareVersions(u, v) >= 0 <==> ParseVersion(u).value >= ParseVersion(v).value)
    ensures !(Numeric(u) && Numeric(v)) ==> (CompareVersions(u, v) >= 0 <==> u == v || StringOrder.Less(v, u))
  {
    if Numeric(u) && Numeric(v) {
      ComparesAsNumber(u, v);
    } else {
      ComparesAsString(u, v);
    }
  }

  /** The comparison is transitive on a set of versions exactly when none of them is crossed. */
  lemma OrderedIffUncrossed(versions: set<string>)
    ensures Ordered(versions) <==> Uncrossed(versions)
  {
    if Uncrossed(versions) {
      forall u, v, w | u in versions && v in versions && w in versions && CompareVersions(u, v) >= 0 &&
          CompareVersions(v, w) >= 0
        ensures CompareVersions(u, w) >= 0
      {
        OrderedTriple(u, v, w);
      }
    }
    if Ordered(versions) {
      forall a, x, b | a in versions && x in versions && b in versions
        ensures !Crossing(a, x, b)
      {
        if Crossing(a, x, b) {
          CrossedVersions(a, x, b);
        }
      }
    }
  }

  /** Crossed versions: a is not below b, b is above x, and x is above a. */
  lemma CrossedVersions(a: string, x: string, b: string)
    requires Crossing(a, x, b)
    ensures CompareVersions(a, b) >= 0 && CompareVersions(b, x) > 0 && CompareVersions(x, a) > 0
    ensures CompareVersions(a, x) < 0
  {
    EmptyIsNotNumeric();
    ComparesAsNumber(a, b);
    StringOrder.Asymmetric(x, b);
    StringOrder.Asymmetric(a, x);
    CompareVersionsAntisymmetric(x, a);
  }

  /** Versions that are all empty or numbers are uncrossed, and so are versions of which none is a number. */
  lemma UniformVersionsAreUncrossed(versions: set<string>)
    requires (forall v :: v in versions ==> Ranked(v)) || (forall v :: v in versions ==> !Numeric(v))
    ensures Uncrossed(versions)
  {
    forall a, x, b | a in versions && x in versions && b in versions
      ensures !Crossing(a, x, b)
    {
      assert Ranked(x) || !Numeric(a);
    }
  }

  // ---- merging ---------------------------------------------------------------------------

  function StatusPriority(s: Status): int {
    match s
    case Alive => 3
    case Suspect => 2
    case Dead => 1
    case Unknown => 0
  }

  /** MergeNodeStates: whether the local state changes, and to what. */
  function MergeNodeStates(existing: Node, remote: Node): (bool, Node) {
    var order := CompareVersions(remote.version, existing.version);
    if order > 0 then (true, remote)
    else if order < 0 then (false, existing)
    else
      var newer := remote.lastHeartbeat > existing.lastHeartbeat;
      var stronger := remote.lastHeartbeat >= existing.lastHeartbeat
                      && StatusPriority(remote.status) > StatusPriority(existing.status);
      var moved := remote.address != "" && existing.address != remote.address;
      (newer || stronger || moved,
       existing.(lastHeartbeat := if newer then remote.lastHeartbeat else existing.lastHeartbeat,
                 status := if stronger then remote.status else existing.status,
                 address := if moved then remote.address else existing.address))
  }

  /** Merging a state that was just merged reports no update, whatever the version strings. */
  lemma RemergeIsQuiet(existing: Node, remote: Node)
    ensures !MergeNodeStates(MergeNodeStates(existing, remote).1, remote).0
  {
  }

  /** What a merge reports is right: without an update the node is untouched. */
  lemma NoUpdateNoChange(existing: Node, remote: Node)
    ensures !MergeNodeStates(existing, remote).0 ==> MergeNodeStates(existing, remote).1 == existing
  {
  }

  /** A merge reports an update exactly when it changes the node. */
  lemma ReportIsExact(existing: Node, remote: Node)
    ensures MergeNodeStates(existing, remote).0 <==> MergeNodeStates(existing, remote).1 != existing
  {
  }

  /** The newer version wins outright. At equal versions the later heartbeat is kept, a known address replaces the old
      one, and the local version string, id and leader flag stay. */
  lemma MergedFields(existing: Node, remote: Node)
    ensures var order := CompareVersions(remote.version, existing.version);
            var merged := MergeNodeStates(existing, remote).1;
            && (order > 0 ==> merged == remote)
            && (order < 0 ==> merged == existing)
            && (order == 0 ==>
                  && merged.lastHeartbeat == (if remote.lastHeartbeat > existing.lastHeartbeat then remote.lastHeartbeat
                                              else existing.lastHeartbeat)
                  && merged.address == (if remote.address == "" then existing.address else remote.address)
                  && merged.version == existing.version && merged.id == existing.id
                  && merged.isLeader == existing.isLeader)
  {
  }

  /** At equal versions a heartbeat that is not older brings the better of the two statuses: alive, then suspect, then
      dead. With an older heartbeat the status stays. */
  lemma MergedStatus(existing: Node, remote: Node)
    requires CompareVersions(remote.version, existing.version) == 0
    ensures var merged := MergeNodeStates(existing, remote).1;
            var either := {existing.status, remote.status};
            merged.status ==
            if remote.lastHeartbeat < existing.lastHeartbeat then existing.status
            else if Alive in either then Alive
            else if Suspect in either then Suspect
            else if Dead in either then Dead
            else Unknown
  {
  }

  // ---- states on the wire ----------------------------------------------------------------

  datatype GossipNodeInfo = GossipNodeInfo(id: string, address: string, status: string, version: string,
      lastHeartbeat: int)

  datatype GossipNodeState = GossipNodeState(nodeID: string, address: string, status: Status, version: string,
      lastHeartbeat: int)

  function StatusName(s: Status): string {
    match s
    case Alive => "alive"
    case Suspect => "suspect"
    case Dead => "dead"
    case Unknown => "unknown"
  }

  /** strings.ToLower, which on the characters of the two names looked for is ASCII. */
  function ToLower(s: string): string {
    seq(|s|, i requires 0 <= i < |s| => if 'A' <= s[i] <= 'Z' then (s[i] as int + 32) as char else s[i])
  }

  function ParseStatus(name: string): Status {
    if ToLower(name) == "suspect" then Suspect
    else if ToLower(name) == "dead" then Dead
    else Alive
  }

  function ToInfo(n: Node): GossipNodeInfo {
    GossipNodeInfo(n.id, n.address, StatusName(n.status), n.version, n.lastHeartbeat)
  }

  function ToState(info: GossipNodeInfo): GossipNodeState {
    GossipNodeState(info.id, info.address, ParseStatus(info.status), info.version, info.lastHeartbeat)
  }

  function ToNode(s: GossipNodeState): Node {
    Node(s.nodeID, s.address, s.status, s.lastHeartbeat, false, s.version)
  }

  /** What a node looks like after travelling: it loses the leader flag, and a status without a name becomes alive. */
  function Wire(n: Node): Node {
    n.(isLeader := false, status := if n.status == Unknown then Alive else n.status)
  }

  /** Status names are read in any case, and whatever is neither suspect nor dead is alive. */
  lemma StatusNamesIgnoreCase(name: string)
    ensures ParseStatus(name) == ParseStatus(ToLower(name))
    ensures ParseStatus("SUSPECT") == Suspect && ParseStatus("Dead") == Dead && ParseStatus("") == Alive
    ensures ToLower(name) != "suspect" && ToLower(name) != "dead" ==> ParseStatus(name) == Alive
  {
    assert ToLower(ToLower(name)) == ToLower(name);
    assert ToLower("SUSPECT") == "suspect";
    assert ToLower("Dead") == "dead" && ToLower("Dead")[0] == 'd';
    assert |ToLower("")| == 0;
  }

  lemma WireConversions(n: Node)
    ensures ToNode(ToState(ToInfo(n))) == Wire(n)
    ensures ToNode(ToState(ToInfo(n))) ==
            Node(n.id, n.address, if n.status == Unknown then Alive else n.status, n.lastHeartbeat, false, n.version)
    ensures ToInfo(n).status == match n.status
                                case Alive => "alive"
                                case Suspect => "suspect"
                                case Dead => "dead"
                                case Unknown => "unknown"
  {
    match n.status
    case Alive => assert ToLower("alive")[0] == 'a';
    case Suspect => assert ToLower("suspect") == "suspect";
    case Dead => assert ToLower("dead") == "dead";
    case Unknown => assert ToLower("unknown")[0] == 'u' && ToLower("unknown")[1] == 'n';
  }

  // ---- two exchanges between two nodes, seen at one id ---------------------------------------

  function MergeInto(existing: Option<Node>, remote: Node): Node {
    if existing.None? then remote else MergeNodeStates(existing.value, remote).1
  }

  /** One request and response: B merges A's state, A merges B's answer. */
  function ExchangeAt(a: Option<Node>, b: Option<Node>): (Option<Node>, Option<Node>) {
    var b' := if a.None? then b else Some(MergeInto(b, Wire(a.value)));
    var a' := if b'.None? then a else Some(MergeInto(a, Wire(b'.value)));
    (a', b')
  }

  /** Everything but the status agrees. */
  ghost predicate AgreeButStatus(a: Option<Node>, b: Option<Node>) {
    && (a.Some? <==> b.Some?)
    && (a.Some? ==>
          && CompareVersions(a.value.version, b.value.version) == 0
          && a.value.lastHeartbeat == b.value.lastHeartbeat
          && a.value.address == b.value.address)
  }

  ghost predicate Agree(a: Option<Node>, b: Option<Node>) {
    AgreeButStatus(a, b) && (a.Some? ==> a.value.status == b.value.status)
  }

  lemma OneExchangeAgreesButStatus(a: Option<Node>, b: Option<Node>)
    ensures AgreeButStatus(ExchangeAt(a, b).0, ExchangeAt(a, b).1)
  {
    if a.Some? && b.Some? {
      CompareVersionsAntisymmetric(a.value.version, b.value.version);
    }
  }

  lemma TwoExchangesAgree(a: Option<Node>, b: Option<Node>)
    ensures var once := ExchangeAt(a, b);
            var twice := ExchangeAt(once.0, once.1);
            Agree(twice.0, twice.1)
  {
    if a.Some? && b.Some? {
      CompareVersionsAntisymmetric(a.value.version, b.value.version);
    }
  }

  /** The stronger of two statuses is not passed on when it comes with the older heartbeat, and a status
      without a name changes on the way. */
  predicate StatusLags(a: Option<Node>, b: Option<Node>) {
    b.Some? &&
    if a.None? then b.value.status == Unknown
    else
      var order := CompareVersions(b.value.version, a.value.version);
      || (order > 0 && b.value.status == Unknown)
      || (order == 0 && a.value.lastHeartbeat < b.value.lastHeartbeat
          && (b.value.status == Unknown || StatusPriority(a.value.status) > StatusPriority(b.value.status)))
  }

  /** After one exchange everything agrees exactly when the status does not lag. */
  lemma OneExchangeAgreesIff(a: Option<Node>, b: Option<Node>)
    ensures Agree(ExchangeAt(a, b).0, ExchangeAt(a, b).1) <==> !StatusLags(a, b)
  {
    OneExchangeAgreesButStatus(a, b);
    if a.Some? && b.Some? {
      CompareVersionsAntisymmetric(a.value.version, b.value.version);
    }
  }

  /** Alive with the older heartbeat against dead with the newer one: after one exchange the heartbeats agree and the
      statuses do not. */
  lemma StatusLagsBehind(id: string, address: string, version: string)
    ensures var a := Node(id, address, Alive, 1, false, version);
            var b := Node(id, address, Dead, 2, false, version);
            && StatusLags(Some(a), Some(b))
            && ExchangeAt(Some(a), Some(b)) == (Some(a.(lastHeartbeat := 2)), Some(b))
  {
  }
}
