/**
 * Node configuration: the settings read from the environment at start-up,
 * the parsing rules applied to them and the validation that refuses to start
 * a misconfigured node.
 */
module Config {
  import opened Wrappers
  import opened Text
  import opened Models

  /** Rust's `u16`. */
  type U16 = n: int | 0 <= n < 0x1_0000

  /** Where blobs are kept. */
  datatype StorageBackend = Gcs | Local

  datatype NodeConfig = NodeConfig(bindAddress: string, dataDir: string, id: string)

  datatype DiscoveryConfig = DiscoveryConfig(dnsName: Option<string>, pollIntervalSeconds: U64)

  datatype ClusterConfig = ClusterConfig(
    clusterPort: U16,
    discovery: DiscoveryConfig,
    electionTimeoutMs: U64,
    heartbeatIntervalMs: U64,
    peers: seq<string>
  )

  datatype StorageConfig = StorageConfig(
    backend: StorageBackend,
    localStoragePath: string,
    gcsBucket: Option<string>,
    gcsCredentialsFile: Option<string>
  )

  datatype Config = Config(
    cluster: ClusterConfig,
    node: NodeConfig,
    storage: StorageConfig,
    testMode: bool,
    maxUploadSize: U64
  )

  datatype ConfigError = ValidationError(message: string)

  /** The defaults of the discovery settings: no DNS name, a 5 s poll. */
  function DefaultDiscovery(): DiscoveryConfig {
    DiscoveryConfig(None, 5)
  }

  /** The defaults of the cluster settings. */
  function DefaultCluster(): ClusterConfig {
    ClusterConfig(9993, DefaultDiscovery(), 3000, 300, [])
  }

  /** The default upload limit: 50 MiB. */
  const DefaultMaxUploadSize: U64 := 50 * 1024 * 1024

  // ---------------------------------------------------------------------------
  // Peers
  // ---------------------------------------------------------------------------

  /** A peer entry that names this node itself, bare or with a port. */
  predicate IsSelf(entry: string, nodeId: string) {
    StartsWith(entry, nodeId + ":") || entry == nodeId
  }

  /** The entries that are neither empty nor this node, in order. */
  function KeepPeers(entries: seq<string>, nodeId: string): (r: seq<string>)
    ensures |r| <= |entries|
    ensures forall p :: p in r <==> p in entries && p != [] && !IsSelf(p, nodeId)
    ensures (forall p :: p in entries ==> p != [] && !IsSelf(p, nodeId)) ==> r == entries
  {
    if |entries| == 0 then []
    else
      var rest := KeepPeers(entries[1..], nodeId);
      var e := entries[0];
      assert forall p :: p in entries <==> p == e || p in entries[1..];
      assert e in entries;
      if e == [] || IsSelf(e, nodeId) then rest
      else
        assert entries == [e] + entries[1..];
        [e] + rest
  }

  /**
   * The filter keeps order and repeats: filtering two lists one after the
   * other gives the two filtered lists one after the other. With the
   * one-entry case of the contract above, this fixes the result completely.
   */
  lemma {:induction false} KeepPeersAppend(a: seq<string>, b: seq<string>, nodeId: string)
    ensures KeepPeers(a + b, nodeId) == KeepPeers(a, nodeId) + KeepPeers(b, nodeId)
    decreases |a|
  {
    if |a| == 0 {
      assert a + b == b;
    } else {
      assert (a + b)[1..] == a[1..] + b;
      KeepPeersAppend(a[1..], b, nodeId);
    }
  }

  /** The comma-separated pieces of `raw`, each trimmed. */
  function TrimmedPieces(raw: string): (r: seq<string>)
    ensures |r| == |Split(raw, ',')|
    ensures forall i :: 0 <= i < |r| ==> r[i] == Trim(Split(raw, ',')[i])
  {
    var pieces := Split(raw, ',');
    seq(|pieces|, i requires 0 <= i < |pieces| => Trim(pieces[i]))
  }

  /**
   * The `PEERS` list: split on `,`, each entry trimmed, empty entries and
   * entries naming this node dropped. A peer is exactly a non-blank trimmed
   * piece that does not name this node; none holds a comma or surrounding whitespace.
   */
  function ParsePeers(raw: string, nodeId: string): (r: seq<string>)
    ensures r == KeepPeers(TrimmedPieces(raw), nodeId)
    ensures forall p :: p in r <==> p in TrimmedPieces(raw) && p != [] && !IsSelf(p, nodeId)
    ensures forall p :: p in r ==> ',' !in p
    ensures forall p :: p in r ==> !IsWhitespace(p[0]) && !IsWhitespace(p[|p| - 1])
  {
    TrimmedPiecesShape(raw);
    KeepPeers(TrimmedPieces(raw), nodeId)
  }

  /** Every trimmed piece is comma-free, and a non-empty one has non-whitespace ends. */
  lemma TrimmedPiecesShape(raw: string)
    ensures forall p :: p in TrimmedPieces(raw) ==> ',' !in p
    ensures forall p :: p in TrimmedPieces(raw) && p != [] ==> !IsWhitespace(p[0]) && !IsWhitespace(p[|p| - 1])
  {
    var pieces := Split(raw, ',');
    var trimmed := TrimmedPieces(raw);
    forall p | p in trimmed
      ensures ',' !in p
    {
      var i :| 0 <= i < |trimmed| && trimmed[i] == p;
      TrimKeepsOut(pieces[i], ',');
    }
  }

  /** Trimming adds no character. */
  lemma TrimKeepsOut(s: string, c: char)
    requires c !in s
    ensures c !in Trim(s)
  {
    var a, b :| 0 <= a <= b <= |s| && Trim(s) == s[a..b] && IsBlank(s[..a]) && IsBlank(s[b..]);
    assert forall j :: 0 <= j < b - a ==> s[a..b][j] == s[a + j];
  }

  // ---------------------------------------------------------------------------
  // Flags and numbers
  // ---------------------------------------------------------------------------

  /** `STORAGE_BACKEND`, lower-cased: `gcs` selects Gcs; anything else, or nothing, selects Local. */
  function ParseBackend(v: Option<string>): (b: StorageBackend)
    ensures v.None? ==> b == Local
  {
    if AsciiLower(v.GetOr("local")) == "gcs" then Gcs else Local
  }

  /** The backend is Gcs exactly for the spellings of `gcs` in any letter case. */
  lemma BackendIsGcs(v: string)
    ensures ParseBackend(Some(v)) == Gcs <==>
      |v| == 3 && v[0] in "gG" && v[1] in "cC" && v[2] in "sS"
  {
    var l := AsciiLower(v);
    if |v| == 3 {
      assert l == [LowerChar(v[0]), LowerChar(v[1]), LowerChar(v[2])];
      assert "gcs" == ['g', 'c', 's'];
    }
  }

  /** `TEST_MODE`: on for exactly `true` or `1`. */
  predicate ParseTestMode(v: Option<string>)
  {
    v == Some("true") || v == Some("1")
  }

  /**
   * The match is case-sensitive: an accepted value is already lower case, so
   * a value that differs from it only in letter case is refused.
   */
  lemma TestModeCaseSensitive(v: string, w: string)
    requires ParseTestMode(Some(v)) && v != w && AsciiLower(w) == AsciiLower(v)
    ensures !ParseTestMode(Some(w))
  {
    assert AsciiLower("true") == "true" by {
      assert "true" == ['t'] + "rue";
      assert "rue" == ['r'] + "ue";
      assert "ue" == ['u'] + "e";
      assert "e" == ['e'] + "";
    }
    assert AsciiLower("1") == "1" by {
      assert "1" == ['1'] + "";
    }
  }

  predicate IsDigit(c: char) {
    '0' <= c <= '9'
  }

  predicate AllDigits(d: string) {
    forall i :: 0 <= i < |d| ==> IsDigit(d[i])
  }

  /** The part of a number after an optional leading `+` (a lone `+` is kept, and is no digit). */
  function Unsigned(s: string): string {
    if |s| > 1 && s[0] == '+' then s[1..] else s
  }

  /** The value of a string of decimal digits. */
  function DigitsValue(d: string): nat
    requires AllDigits(d)
    decreases |d|
  {
    if |d| == 0 then 0
    else
      var last := d[|d| - 1];
      assert IsDigit(last);
      DigitsValue(d[..|d| - 1]) * 10 + (last as int - '0' as int)
  }

  /**
   * `str::parse` for an unsigned integer type whose values lie below `bound`:
   * an optional `+`, then at least one decimal digit; a value at or over the
   * bound is an overflow error.
   */
  function ParseUnsigned(s: string, bound: nat): (r: Option<nat>)
    ensures r.Some? ==> r.value < bound
    ensures s == [] ==> r.None?
    ensures r.Some? <==> Unsigned(s) != [] && AllDigits(Unsigned(s)) && DigitsValue(Unsigned(s)) < bound
    ensures r.Some? ==> r.value == DigitsValue(Unsigned(s))
  {
    var d := Unsigned(s);
    if d == [] || exists i :: 0 <= i < |d| && !IsDigit(d[i]) then None
    else
      var n := DigitsValue(d);
      if n < bound then Some(n) else None
  }

  /** The decimal rendering is a non-empty string of digits whose value is the number. */
  lemma {:induction false} DecimalValue(n: nat)
    ensures |Decimal(n)| >= 1
    ensures forall i :: 0 <= i < |Decimal(n)| ==> IsDigit(Decimal(n)[i])
    ensures DigitsValue(Decimal(n)) == n
    decreases n
  {
    if n >= 10 {
      var d := Decimal(n);
      DecimalValue(n / 10);
      assert d[..|d| - 1] == Decimal(n / 10);
    }
  }

  /** Parsing what `Display` prints gives the number back. */
  lemma ParseDecimal(n: nat, bound: nat)
    requires n < bound
    ensures ParseUnsigned(Decimal(n), bound) == Some(n)
  {
    DecimalValue(n);
  }

  /**
   * A leading `+` is accepted and a leading `-` is not; a number at or over
   * the bound is an overflow, not a wrapped value.
   */
  lemma {:induction false} ParseSigns(n: nat, bound: nat)
    ensures n < bound ==> ParseUnsigned("+" + Decimal(n), bound) == Some(n)
    ensures ParseUnsigned("-" + Decimal(n), bound) == None
    ensures n >= bound ==> ParseUnsigned(Decimal(n), bound) == None
  {
    DecimalValue(n);
    var plus := "+" + Decimal(n);
    assert Unsigned(plus) == Decimal(n);
    var minus := "-" + Decimal(n);
    assert Unsigned(minus) == minus && !IsDigit(minus[0]);
  }

  // ---------------------------------------------------------------------------
  // Loading and validation
  // ---------------------------------------------------------------------------

  /** The process environment: variable names to values. */
  type Env = map<string, string>

  /** The value of an environment variable, if set. */
  function Var(env: Env, name: string): Option<string> {
    if name in env then Some(env[name]) else None
  }

  /** A numeric setting: its parsed value, or the default when it is unset or does not parse. */
  function NumberOr(v: Option<string>, bound: nat, default: nat): (n: nat)
    requires default < bound
    ensures n < bound
    ensures v.None? ==> n == default
    ensures v.Some? && ParseUnsigned(v.value, bound).Some? ==> n == ParseUnsigned(v.value, bound).value
    ensures v.Some? && ParseUnsigned(v.value, bound).None? ==> n == default
  {
    if v.Some? && ParseUnsigned(v.value, bound).Some? then ParseUnsigned(v.value, bound).value else default
  }

  /**
   * The configuration `Config::load` assembles before validating it: every
   * variable with its default, and the peer list filtered against the node id
   * (a fresh UUID, `freshId`, when `NODE_ID` is unset).
   */
  function FromEnv(env: Env, freshId: string): (c: Config)
    ensures c.node.id == Var(env, "NODE_ID").GetOr(freshId)
    ensures c.cluster.peers == if "PEERS" in env then ParsePeers(env["PEERS"], c.node.id) else []
    ensures forall p :: p in c.cluster.peers ==> !IsSelf(p, c.node.id)
    ensures c.cluster.discovery.dnsName == Var(env, "DISCOVERY_DNS_NAME")
    ensures c.testMode == ParseTestMode(Var(env, "TEST_MODE"))
    ensures c.testMode <==> "TEST_MODE" in env && env["TEST_MODE"] in {"true", "1"}
    ensures c.cluster.clusterPort == NumberOr(Var(env, "CLUSTER_PORT"), 0x1_0000, 9993)
    ensures c.cluster.discovery.pollIntervalSeconds == NumberOr(Var(env, "DISCOVERY_POLL_INTERVAL"), 0x1_0000_0000_0000_0000, 5)
    ensures c.maxUploadSize == NumberOr(Var(env, "MAX_UPLOAD_SIZE"), 0x1_0000_0000_0000_0000, DefaultMaxUploadSize)
    ensures c.cluster.electionTimeoutMs == 3000 && c.cluster.heartbeatIntervalMs == 300
    ensures c.storage.backend == ParseBackend(Var(env, "STORAGE_BACKEND"))
    ensures c.storage.gcsBucket == Var(env, "GCS_BUCKET")
    ensures c.storage.gcsCredentialsFile == Var(env, "GCS_CREDENTIALS_FILE")
    ensures c.storage.localStoragePath == Var(env, "LOCAL_STORAGE_PATH").GetOr("./files")
    ensures c.node.bindAddress == Var(env, "BIND_ADDRESS").GetOr("0.0.0.0:8080")
    ensures c.node.dataDir == Var(env, "DATA_DIR").GetOr("./data")
  {
    var nodeId := Var(env, "NODE_ID").GetOr(freshId);
    var peers := if "PEERS" in env then ParsePeers(env["PEERS"], nodeId) else [];
    var discovery := DiscoveryConfig(Var(env, "DISCOVERY_DNS_NAME"),
                                     NumberOr(Var(env, "DISCOVERY_POLL_INTERVAL"), 0x1_0000_0000_0000_0000, 5));
    var cluster := DefaultCluster().(
      clusterPort := NumberOr(Var(env, "CLUSTER_PORT"), 0x1_0000, 9993),
      peers := peers,
      discovery := discovery);
    var storage := StorageConfig(
      ParseBackend(Var(env, "STORAGE_BACKEND")),
      Var(env, "LOCAL_STORAGE_PATH").GetOr("./files"),
      Var(env, "GCS_BUCKET"),
      Var(env, "GCS_CREDENTIALS_FILE"));
    Config(
      cluster,
      NodeConfig(Var(env, "BIND_ADDRESS").GetOr("0.0.0.0:8080"), Var(env, "DATA_DIR").GetOr("./data"), nodeId),
      storage,
      ParseTestMode(Var(env, "TEST_MODE")),
      NumberOr(Var(env, "MAX_UPLOAD_SIZE"), 0x1_0000_0000_0000_0000, DefaultMaxUploadSize))
  }

  /**
   * `Config::load` over an environment: the assembled configuration when it
   * passes `validate`, else the validation error.
   */
  function Load(env: Env, freshId: string): (r: Result<Config, ConfigError>)
    ensures r.Ok? ==> r.value == FromEnv(env, freshId)
    ensures r.Ok? ==> r.value.node.id != []
    ensures r.Ok? ==> Validate(r.value) == Pass
    ensures r.Ok? ==> forall p :: p in r.value.cluster.peers ==> !IsSelf(p, r.value.node.id)
    ensures r.Ok? ==> r.value.testMode == ParseTestMode(Var(env, "TEST_MODE"))
    ensures r.Ok? ==> (r.value.testMode <==> "TEST_MODE" in env && env["TEST_MODE"] in {"true", "1"})
    ensures r.Ok? ==> r.value.node.id == Var(env, "NODE_ID").GetOr(freshId)
    ensures r.Ok? ==> r.value.cluster.peers == if "PEERS" in env then ParsePeers(env["PEERS"], r.value.node.id) else []
    ensures r.Ok? ==> r.value.cluster.discovery.dnsName == Var(env, "DISCOVERY_DNS_NAME")
    ensures r.Ok? <==>
      Var(env, "NODE_ID").GetOr(freshId) != [] &&
      !(ParseBackend(Var(env, "STORAGE_BACKEND")) == Gcs && "GCS_BUCKET" !in env)
    ensures r.Err? && Var(env, "NODE_ID").GetOr(freshId) == [] ==> r == Err(ValidationError("NODE_ID cannot be empty"))
    ensures r.Err? && Var(env, "NODE_ID").GetOr(freshId) != [] ==>
      r == Err(ValidationError("GCS_BUCKET is required when STORAGE_BACKEND=gcs"))
    ensures r.Ok? ==> r.value.cluster.clusterPort == NumberOr(Var(env, "CLUSTER_PORT"), 0x1_0000, 9993)
  {
    var config := FromEnv(env, freshId);
    match Validate(config)
    case Fail(e) => Err(e)
    case Pass => Ok(config)
  }

  /** `validate`: a node needs an id, and the Gcs backend needs a bucket. */
  function Validate(c: Config): (r: Outcome<ConfigError>)
    ensures r == Pass <==> c.node.id != [] && !(c.storage.backend == Gcs && c.storage.gcsBucket.None?)
    ensures c.node.id == [] ==> r == Fail(ValidationError("NODE_ID cannot be empty"))
  {
    if c.node.id == [] then Fail(ValidationError("NODE_ID cannot be empty"))
    else if c.storage.backend == Gcs && c.storage.gcsBucket.None? then
      Fail(ValidationError("GCS_BUCKET is required when STORAGE_BACKEND=gcs"))
    else Pass
  }

  /** The cluster size `validate` warns about: more than one node and an even count. */
  predicate EvenClusterWarning(c: Config) {
    var size := |c.cluster.peers| + 1;
    size > 1 && size % 2 == 0
  }

  /** The peer list, and so the even-size warning, never decides validation. */
  lemma ValidateIgnoresPeers(c: Config, peers: seq<string>)
    ensures Validate(c.(cluster := c.cluster.(peers := peers))) == Validate(c)
  {
  }

  /** `is_single_node`: no static peers and no DNS discovery. */
  predicate IsSingleNode(c: Config)
  {
    |c.cluster.peers| == 0 && c.cluster.discovery.dnsName.None?
  }

  /** A cluster port beyond the 16-bit range does not parse, so the node listens on the default port. */
  lemma LoadPortOverflow(env: Env, freshId: string)
    requires Var(env, "CLUSTER_PORT") == Some("70000")
    ensures Load(env, freshId).Ok? ==> Load(env, freshId).value.cluster.clusterPort == 9993
  {
    assert Decimal(70000) == "70000" by {
      assert Decimal(7) == "7";
      assert Decimal(70) == "70";
      assert Decimal(700) == "700";
      assert Decimal(7000) == "7000";
    }
    ParseSigns(70000, 0x1_0000);
  }

  /**
   * A loaded node is single-node exactly when no DNS name is set and every
   * trimmed piece of `PEERS`, if set, is empty or names this node.
   */
  lemma LoadSingleNode(env: Env, freshId: string)
    ensures Load(env, freshId).Ok? ==>
      var nodeId := Var(env, "NODE_ID").GetOr(freshId);
      (IsSingleNode(Load(env, freshId).value) <==>
        && "DISCOVERY_DNS_NAME" !in env
        && ("PEERS" in env ==> forall p :: p in TrimmedPieces(env["PEERS"]) ==> p == [] || IsSelf(p, nodeId)))
  {
    if Load(env, freshId).Ok? && "PEERS" in env {
      NoPeers(env["PEERS"], Var(env, "NODE_ID").GetOr(freshId));
    }
  }

  /** The peer list is empty exactly when every trimmed piece is empty or names this node. */
  lemma NoPeers(raw: string, nodeId: string)
    ensures ParsePeers(raw, nodeId) == [] <==> forall p :: p in TrimmedPieces(raw) ==> p == [] || IsSelf(p, nodeId)
  {
    var peers := ParsePeers(raw, nodeId);
    if peers != [] {
      assert peers[0] in peers;
    }
  }

  /** An unset `NODE_ID` falls back to the fresh id; a set but empty one stops the node. */
  lemma LoadNodeId(env: Env, freshId: string)
    ensures "NODE_ID" in env && env["NODE_ID"] == [] ==>
      Load(env, freshId) == Err(ValidationError("NODE_ID cannot be empty"))
    ensures "NODE_ID" !in env && Load(env, freshId).Ok? ==> Load(env, freshId).value.node.id == freshId
  {
  }
}
