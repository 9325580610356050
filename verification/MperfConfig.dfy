/** The connection configuration on its way from client to server, as a framed JSON text. */
module MperfConfig {
  import opened Bytes
  import opened JsonValue
  import opened JsonText
  import JsonGrammar
  import JsonParser
  import JsonPrinter
  import JsonRoundTrip

  /** mperf_conn_config */
  datatype Config = Config(blksize: nat, rate: nat, burst: nat, bytes: nat, blocks: nat, duration: nat)

  /** The settings of a server that was given none. */
  const DEFAULTS := Config(131072, 0, 0, 0, 0, 10)

  const U32 := 0x1_0000_0000
  const U64 := 0x1_0000_0000_0000_0000

  /** The widths of the fields; a rate of 10^15 and more is not printed as plain digits. */
  predicate InRange(c: Config) {
    && c.blksize < U32 && c.burst < U32 && c.bytes < U32 && c.blocks < U32 && c.duration < U32
    && c.rate < 1000000000000000
  }

  /** A version as a client may announce it: a C string, short enough for the frame to be read. */
  predicate Announced(version: seq<byte>) {
    NulFree(version) && |version| < 0x1000_0000
  }

  /** TEST_STATE_PARAM_EXCHANGE */
  const PARAM_EXCHANGE: byte := 5

  // "duration", "blksize", "rate", "burst", "bytes", "blocks", "client_version"
  const K_DURATION: seq<byte> := [0x64, 0x75, 0x72, 0x61, 0x74, 0x69, 0x6F, 0x6E]
  const K_BLKSIZE: seq<byte> := [0x62, 0x6C, 0x6B, 0x73, 0x69, 0x7A, 0x65]
  const K_RATE: seq<byte> := [0x72, 0x61, 0x74, 0x65]
  const K_BURST: seq<byte> := [0x62, 0x75, 0x72, 0x73, 0x74]
  const K_BYTES: seq<byte> := [0x62, 0x79, 0x74, 0x65, 0x73]
  const K_BLOCKS: seq<byte> := [0x62, 0x6C, 0x6F, 0x63, 0x6B, 0x73]
  const K_VERSION: seq<byte> := [0x63, 0x6C, 0x69, 0x65, 0x6E, 0x74, 0x5F, 0x76, 0x65, 0x72, 0x73, 0x69, 0x6F, 0x6E]

  // "tcp-samples 1.0"
  const PACKAGE: seq<byte> :=
    [0x74, 0x63, 0x70, 0x2D, 0x73, 0x61, 0x6D, 0x70, 0x6C, 0x65, 0x73, 0x20, 0x31, 0x2E, 0x30]

  // ---- Looking up a member ----

  function ToLower(b: byte): (r: byte)
    ensures r == NUL <==> b == NUL
  {
    if 0x41 <= b <= 0x5A then b + 32 else b
  }

  /** A name as the lookup sees it: a C string, in lower case. */
  function Folded(s: seq<byte>): (r: seq<byte>) {
    var c := CString(s);
    seq(|c|, i requires 0 <= i < |c| => ToLower(c[i]))
  }

  /** case_insensitive_strcmp(a, b) == 0 */
  method CaseInsensitiveEqual(a: seq<byte>, b: seq<byte>) returns (equal: bool)
    ensures equal <==> Folded(a) == Folded(b)
  {
    hide CString, Folded, ToLower;
    var x, y := a + [NUL], b + [NUL];
    Ends(a);
    Ends(b);
    var i := 0;
    while ToLower(x[i]) == ToLower(y[i])
      invariant i <= |Folded(a)| && i <= |Folded(b)|
      invariant forall k :: 0 <= k < i ==> Folded(a)[k] == Folded(b)[k]
      decreases |x| - i
    {
      if x[i] == NUL {
        return true;
      }
      i := i + 1;
    }
    return false;
  }

  lemma Ends(a: seq<byte>)
    ensures var x, f := a + [NUL], Folded(a);
            |f| <= |a| && x[|f|] == NUL && forall k :: 0 <= k < |f| ==> ToLower(x[k]) == f[k] != NUL
  {
    var p := CString(a);
    assert p == a[..|p|];
  }

  /** The first member with that name, letter case aside. */
  function Find(ms: Members, name: seq<byte>): Option<Value> {
    match ms
    case NoMember => None
    case Member(k, v, next) => if Folded(k) == Folded(name) then Some(v) else Find(next, name)
  }

  /** The same byte, or one letter in both cases. */
  predicate SameLetter(a: byte, b: byte) {
    a == b || (0x41 <= a <= 0x5A && b == a + 32) || (0x41 <= b <= 0x5A && a == b + 32)
  }

  predicate SameButCase(a: seq<byte>, b: seq<byte>) {
    |a| == |b| && forall k :: 0 <= k < |a| ==> SameLetter(a[k], b[k])
  }

  /** Two names are one to the lookup if and only if they differ in nothing but the case of letters. */
  lemma FoldedIff(a: seq<byte>, b: seq<byte>)
    ensures Folded(a) == Folded(b) <==> SameButCase(CString(a), CString(b))
  {
    hide CString;
    var x, y := CString(a), CString(b);
    assert forall k :: 0 <= k < |x| ==> Folded(a)[k] == ToLower(x[k]);
    assert forall k :: 0 <= k < |y| ==> Folded(b)[k] == ToLower(y[k]);
    if Folded(a) == Folded(b) {
      forall k | 0 <= k < |x| ensures SameLetter(x[k], y[k]) {
        assert Folded(a)[k] == Folded(b)[k];
      }
    }
  }

  /** The member at position `n`. */
  function MemberNo(ms: Members, n: nat): Option<(seq<byte>, Value)> {
    match ms
    case NoMember => None
    case Member(k, v, next) => if n == 0 then Some((k, v)) else MemberNo(next, n - 1)
  }

  /** The member at position `n` has that name, letter case aside. */
  predicate NamedAt(ms: Members, n: nat, name: seq<byte>) {
    MemberNo(ms, n).Some? && SameButCase(CString(MemberNo(ms, n).value.0), CString(name))
  }

  /** The lookup finds the value of the first member of that name, and fails only when there is none. */
  lemma {:induction false} FindIff(ms: Members, name: seq<byte>, v: Value)
    ensures Find(ms, name) == Some(v) <==>
              exists n: nat :: NamedAt(ms, n, name) && MemberNo(ms, n).value.1 == v
                               && forall m: nat :: m < n ==> !NamedAt(ms, m, name)
    ensures Find(ms, name) == None <==> forall n: nat :: !NamedAt(ms, n, name)
  {
    hide CString, Folded, SameButCase;
    if ms.Member? {
      FoldedIff(ms.key, name);
      FindIff(ms.next, name, v);
      assert forall n: nat :: NamedAt(ms, n + 1, name) == NamedAt(ms.next, n, name);
      if Folded(ms.key) == Folded(name) {
        assert NamedAt(ms, 0, name) && MemberNo(ms, 0).value.1 == ms.value;
      } else {
        assert !NamedAt(ms, 0, name);
        NamedLater(ms, name, v);
      }
    }
  }

  lemma NamedLater(ms: Members, name: seq<byte>, v: Value)
    requires ms.Member? && !NamedAt(ms, 0, name)
    ensures (exists n: nat :: NamedAt(ms, n, name) && MemberNo(ms, n).value.1 == v
                              && forall m: nat :: m < n ==> !NamedAt(ms, m, name))
            <==> (exists n: nat :: NamedAt(ms.next, n, name) && MemberNo(ms.next, n).value.1 == v
                                   && forall m: nat :: m < n ==> !NamedAt(ms.next, m, name))
    ensures (forall n: nat :: !NamedAt(ms, n, name)) <==> (forall n: nat :: !NamedAt(ms.next, n, name))
  {
    hide SameButCase, CString;
    assert forall n: nat :: NamedAt(ms, n + 1, name) == NamedAt(ms.next, n, name)
                            && MemberNo(ms, n + 1) == MemberNo(ms.next, n);
    if n: nat :| NamedAt(ms, n, name) && MemberNo(ms, n).value.1 == v
                 && forall m: nat :: m < n ==> !NamedAt(ms, m, name) {
      assert NamedAt(ms.next, n - 1, name) && MemberNo(ms.next, n - 1).value.1 == v;
      forall m: nat | m < n - 1 ensures !NamedAt(ms.next, m, name) {
        assert !NamedAt(ms, m + 1, name);
      }
    }
    if n: nat :| NamedAt(ms.next, n, name) && MemberNo(ms.next, n).value.1 == v
                 && forall m: nat :: m < n ==> !NamedAt(ms.next, m, name) {
      assert NamedAt(ms, n + 1, name) && MemberNo(ms, n + 1).value.1 == v;
      forall m: nat | m < n + 1 ensures !NamedAt(ms, m, name) {
        if m > 0 { assert !NamedAt(ms.next, m - 1, name); }
      }
    }
    if forall n: nat :: !NamedAt(ms.next, n, name) {
      forall n: nat ensures !NamedAt(ms, n, name) {
        if n > 0 { assert !NamedAt(ms.next, n - 1, name); }
      }
    }
  }

  /** The members of an item; the children of an array have no names. */
  function Named(v: Value): Members {
    if v.Object? then v.members else NoMember
  }

  /** cJSON_GetObjectItem */
  method GetObjectItem(json: Value, name: seq<byte>) returns (item: Option<Value>)
    ensures item == Find(Named(json), name)
  {
    var current := Named(json);
    while current.Member?
      invariant Find(current, name) == Find(Named(json), name)
      decreases current
    {
      var found := CaseInsensitiveEqual(name, current.key);
      if found {
        return Some(current.value);
      }
      current := current.next;
    }
    return None;
  }

  /** `valueint`: numbers are cut to an integer and saturate; `true` counts as one. */
  function ValueInt(v: Value): int {
    match v
    case Number(d) =>
      if d >= 9223372036854775807.0 then 9223372036854775807
      else if d <= -9223372036854775808.0 then -9223372036854775808
      else if d >= 0.0 then d.Floor
      else -((-d).Floor)
    case True => 1
    case _ => 0
  }

  /** The integer next to a number on the side of zero, as far as it can be stored. */
  lemma ValueIntTruncates(d: real)
    ensures var n := ValueInt(Number(d));
            && -9223372036854775808 <= n <= 9223372036854775807
            && (d >= 9223372036854775807.0 ==> n == 9223372036854775807)
            && (d <= -9223372036854775808.0 ==> n == -9223372036854775808)
            && (0.0 <= d < 9223372036854775807.0 ==> n as real <= d < n as real + 1.0)
            && (-9223372036854775808.0 < d < 0.0 ==> n as real - 1.0 < d <= n as real)
    ensures ValueInt(True) == 1 && ValueInt(False) == 0
  {
  }

  // ---- The frame ----

  /** A length in network byte order. */
  function NetworkOrder(n: nat): (b: seq<byte>)
    requires n < U32
    ensures |b| == 4
  {
    var a := n / 0x100;
    var b := a / 0x100;
    [b / 0x100, b % 0x100, a % 0x100, n % 0x100]
  }

  function HostOrder(b: seq<byte>): (n: nat)
    requires |b| == 4
    ensures n < U32
  {
    (b[0] as int) * 0x100_0000 + (b[1] as int) * 0x1_0000 + (b[2] as int) * 0x100 + b[3] as int
  }

  lemma OrderRoundTrip(n: nat)
    requires n < U32
    ensures HostOrder(NetworkOrder(n)) == n
  {
  }

  /** The bytes of smaller lengths come first in the order of byte strings: the highest byte leads. */
  lemma NetworkOrderSorts(m: nat, n: nat)
    requires m < n < U32
    ensures exists k :: 0 <= k < 4 && NetworkOrder(m)[..k] == NetworkOrder(n)[..k]
                        && NetworkOrder(m)[k] < NetworkOrder(n)[k]
  {
    var x, y := NetworkOrder(m), NetworkOrder(n);
    OrderRoundTrip(m);
    OrderRoundTrip(n);
    var k := if x[0] != y[0] then 0 else if x[1] != y[1] then 1 else if x[2] != y[2] then 2 else 3;
    assert x[..k] == y[..k];
    FirstDiffers(x, y, k);
  }

  lemma FirstDiffers(x: seq<byte>, y: seq<byte>, k: nat)
    requires |x| == |y| == 4 && k < 4 && HostOrder(x) < HostOrder(y)
    requires forall i :: 0 <= i < k ==> x[i] == y[i]
    requires k < 3 ==> x[k] != y[k]
    ensures x[k] < y[k]
  {
  }

  /**
   * JSON_read on what the peer sends: a length, then a text of that length. When the peer stops inside the
   * length, what is in the rest of it does not matter: nothing is left to read, and an empty text is no value.
   * No text of 2^31 bytes or more is read, as the number of bytes read is returned as an `int`.
   */
  function Read(input: seq<byte>): Option<Value> {
    if |input| < 4 then None
    else
    var size := HostOrder(input[..4]);
    if |input| - 4 < size || size >= U32 / 2 then None
    else match JsonGrammar.Parse(CString(input[4..4 + size]), false)
      case Ok(v, _) => Some(v)
      case Err(_) => None
  }

  /**
   * A frame is read only when it is complete and shorter than 2^31 bytes; then what the peer sends behind it does
   * not matter.
   */
  lemma ReadFrame(n: nat, text: seq<byte>, more: seq<byte>)
    requires n < U32
    ensures |text| < n || n >= 0x8000_0000 ==> Read(NetworkOrder(n) + text) == None
    ensures |text| == n < 0x8000_0000 ==> Read(NetworkOrder(n) + text + more) == Read(NetworkOrder(n) + text)
    ensures |text| == n < 0x8000_0000 && NulFree(text) ==>
              Read(NetworkOrder(n) + text) == match JsonGrammar.Parse(text, false)
                                              case Ok(v, _) => Some(v)
                                              case Err(_) => None
  {
    hide NetworkOrder, HostOrder, JsonGrammar.Parse, CString;
    OrderRoundTrip(n);
    var order, input := NetworkOrder(n), NetworkOrder(n) + text;
    assert input[..4] == order;
    if |text| == n {
      assert (input + more)[..4] == order && (input + more)[4..4 + n] == text == input[4..4 + n];
      if NulFree(text) {
        WholeText(text);
      }
    }
  }

  // ---- Client ----

  /** A member that is left out when its value is zero. */
  function Optional(key: seq<byte>, n: nat, rest: Members): Members {
    if n != 0 then Member(key, Number(n as real), rest) else rest
  }

  // The members from a given one on.
  function FromVersion(version: seq<byte>): Members {
    Member(K_VERSION, String(version), NoMember)
  }

  function FromBlocks(c: Config, version: seq<byte>): Members {
    Optional(K_BLOCKS, c.blocks, FromVersion(version))
  }

  function FromBytes(c: Config, version: seq<byte>): Members {
    Optional(K_BYTES, c.bytes, FromBlocks(c, version))
  }

  function FromBurst(c: Config, version: seq<byte>): Members {
    Optional(K_BURST, c.burst, FromBytes(c, version))
  }

  function FromRate(c: Config, version: seq<byte>): Members {
    Optional(K_RATE, c.rate, FromBurst(c, version))
  }

  function FromBlksize(c: Config, version: seq<byte>): Members {
    Optional(K_BLKSIZE, c.blksize, FromRate(c, version))
  }

  /** The members that describe a configuration. */
  function Described(c: Config, version: seq<byte>): Members {
    Member(K_DURATION, Number(c.duration as real), FromBlksize(c, version))
  }

  // ---- The frame is short ----

  lemma {:induction false} EscapedSize(s: seq<byte>)
    ensures |EscapedAll(s)| <= 6 * |s|
  {
    if s != [] {
      EscapedSize(s[1..]);
    }
  }

  /** A bound on the text of members without containers. */
  function Size(ms: Members): nat {
    match ms
    case NoMember => 0
    case Member(k, v, next) => 6 * |k| + (if v.String? then 6 * |v.s| else 20) + 10 + Size(next)
  }

  lemma {:induction false} MembersSize(ms: Members)
    requires PrintableMembers(ms) && Plain(ms)
    ensures |MembersText(ms, false, 1)| <= Size(ms)
  {
    if ms.Member? {
      MembersUnfold(ms, false, 1);
      MembersSize(ms.next);
      EscapedSize(ms.key);
      ValueSize(ms.value);
    }
  }

  /** Members that are strings or natural numbers. */
  predicate Plain(ms: Members) {
    ms.Member? ==> (ms.value.String? || (ms.value.Number? && ms.value.d >= 0.0)) && Plain(ms.next)
  }

  lemma ValueSize(v: Value)
    requires Printable(v) && (v.String? || (v.Number? && v.d >= 0.0))
    ensures |Text(v, false, 1)| <= (if v.String? then 6 * |v.s| else 20) + 2
  {
    if v.String? {
      EscapedSize(v.s);
    } else {
      JsonRoundTrip.DecimalBytes(v.d.Floor);
    }
  }

  /** Members that print, parse back and take at most `size` bytes. */
  ghost predicate Sendable(ms: Members, size: nat) {
    PrintableMembers(ms) && RawFreeMembers(ms) && NestingMembers(ms) == 0 && Plain(ms) && Size(ms) <= size
  }

  lemma NumberSendable(key: seq<byte>, n: nat, rest: Members, size: nat)
    requires NulFree(key) && n < 1000000000000000 && Sendable(rest, size)
    ensures Sendable(Member(key, Number(n as real), rest), size + 6 * |key| + 30)
  {
  }

  lemma OptionalSendable(key: seq<byte>, n: nat, rest: Members, size: nat)
    requires NulFree(key) && n < 1000000000000000 && Sendable(rest, size)
    ensures Sendable(Optional(key, n, rest), size + 6 * |key| + 30)
  {
    NumberSendable(key, n, rest, size);
  }

  lemma VersionSendable(version: seq<byte>)
    requires NulFree(version)
    ensures Sendable(FromVersion(version), 6 * |version| + 100)
  {
  }

  lemma KeysNulFree()
    ensures NulFree(K_DURATION) && NulFree(K_BLKSIZE) && NulFree(K_RATE)
    ensures NulFree(K_BURST) && NulFree(K_BYTES) && NulFree(K_BLOCKS)
  {
  }

  lemma DescribedSendable(c: Config, version: seq<byte>)
    requires InRange(c) && Announced(version)
    ensures Sendable(Described(c, version), 6 * |version| + 500)
  {
    hide Optional, Sendable, FromVersion, NulFree;
    VersionSendable(version);
    var n := 6 * |version| + 100;
    KeysNulFree();
    OptionalSendable(K_BLOCKS, c.blocks, FromVersion(version), n);
    OptionalSendable(K_BYTES, c.bytes, FromBlocks(c, version), n + 66);
    OptionalSendable(K_BURST, c.burst, FromBytes(c, version), n + 126);
    OptionalSendable(K_RATE, c.rate, FromBurst(c, version), n + 186);
    OptionalSendable(K_BLKSIZE, c.blksize, FromRate(c, version), n + 240);
    NumberSendable(K_DURATION, c.duration, FromBlksize(c, version), n + 312);
    SendableMore(Described(c, version), n + 390, n + 400);
  }

  lemma SendableMore(ms: Members, small: nat, size: nat)
    requires Sendable(ms, small) && small <= size
    ensures Sendable(ms, size)
  {
  }

  lemma DescribedPrints(c: Config, version: seq<byte>)
    requires InRange(c) && Announced(version)
    ensures var v := Object(Described(c, version));
            Printable(v) && RawFree(v) && Nesting(v) <= NESTING_LIMIT && |Text(v, false, 0)| < U32 / 2
  {
    hide Described;
    DescribedSendable(c, version);
    MembersSize(Described(c, version));
  }

  /** Members whose text a peer reads: printed in less than 2^31 bytes. */
  predicate Framable(ms: Members) {
    PrintableMembers(ms) && |Text(Object(ms), false, 0)| < U32 / 2
  }

  /** What JSON_write sends: state, length and text. */
  function FrameOf(ms: Members): (f: seq<byte>)
    requires Framable(ms)
  {
    var text := Text(Object(ms), false, 0);
    [PARAM_EXCHANGE] + NetworkOrder(|text|) + text
  }

  /** What mperf_send_conf writes to the control connection. */
  function Frame(c: Config, version: seq<byte>): (f: seq<byte>)
    requires InRange(c) && Announced(version)
  {
    DescribedPrints(c, version);
    FrameOf(Described(c, version))
  }

  function Append(ms: Members, key: seq<byte>, v: Value): Members {
    AppendMembers(ms, Member(key, v, NoMember))
  }

  lemma {:induction false} AppendNone(ms: Members)
    ensures AppendMembers(ms, NoMember) == ms
  {
    if ms.Member? {
      AppendNone(ms.next);
    }
  }

  /** mperf_send_conf with JSON_write: what is written to the control connection. */
  method SendConf(c: Config, version: seq<byte>) returns (frame: seq<byte>)
    requires InRange(c) && Announced(version)
    ensures frame == Frame(c, version)
  {
    hide Text;
    var json := Append(NoMember, K_DURATION, Number(c.duration as real));
    JsonParser.AppendMember(NoMember, K_DURATION, Number(c.duration as real), FromBlksize(c, version));
    if c.blksize != 0 {
      JsonParser.AppendMember(json, K_BLKSIZE, Number(c.blksize as real), FromRate(c, version));
      json := Append(json, K_BLKSIZE, Number(c.blksize as real));
    }
    assert AppendMembers(json, FromRate(c, version)) == Described(c, version);
    if c.rate != 0 {
      JsonParser.AppendMember(json, K_RATE, Number(c.rate as real), FromBurst(c, version));
      json := Append(json, K_RATE, Number(c.rate as real));
    }
    assert AppendMembers(json, FromBurst(c, version)) == Described(c, version);
    if c.burst != 0 {
      JsonParser.AppendMember(json, K_BURST, Number(c.burst as real), FromBytes(c, version));
      json := Append(json, K_BURST, Number(c.burst as real));
    }
    assert AppendMembers(json, FromBytes(c, version)) == Described(c, version);
    if c.bytes != 0 {
      JsonParser.AppendMember(json, K_BYTES, Number(c.bytes as real), FromBlocks(c, version));
      json := Append(json, K_BYTES, Number(c.bytes as real));
    }
    assert AppendMembers(json, FromBlocks(c, version)) == Described(c, version);
    if c.blocks != 0 {
      JsonParser.AppendMember(json, K_BLOCKS, Number(c.blocks as real), FromVersion(version));
      json := Append(json, K_BLOCKS, Number(c.blocks as real));
    }
    assert AppendMembers(json, FromVersion(version)) == Described(c, version);
    JsonParser.AppendMember(json, K_VERSION, String(version), NoMember);
    json := Append(json, K_VERSION, String(version));
    AppendNone(json);
    DescribedPrints(c, version);
    hide Described;
    var ok, printed := JsonPrinter.Print(Object(json), false, true);
    var str := CString(printed[..]);
    frame := [PARAM_EXCHANGE] + NetworkOrder(|str|) + str;
  }

  // ---- Server ----

  /** A received number as an unsigned field of `width` values; an absent one leaves the field alone. */
  function Taken(ms: Members, name: seq<byte>, width: nat, was: nat): nat
    requires width > 0
  {
    match Find(ms, name)
    case None => was
    case Some(v) => ValueInt(v) % width
  }

  /** The configuration after the members of a message were applied to it. */
  function Applied(c: Config, ms: Members): Config {
    Config(Taken(ms, K_BLKSIZE, U32, c.blksize), Taken(ms, K_RATE, U64, c.rate), Taken(ms, K_BURST, U32, c.burst),
           Taken(ms, K_BYTES, U32, c.bytes), Taken(ms, K_BLOCKS, U32, c.blocks), Taken(ms, K_DURATION, U32, c.duration))
  }

  function Ascii(s: string): seq<byte> {
    seq(|s|, i requires 0 <= i < |s| => s[i] as int % 256)
  }

  /** The names by which the settings travel. */
  lemma KeyNames()
    ensures K_DURATION == Ascii("duration") && K_BLKSIZE == Ascii("blksize") && K_RATE == Ascii("rate")
    ensures K_BURST == Ascii("burst") && K_BYTES == Ascii("bytes") && K_BLOCKS == Ascii("blocks")
  {
  }

  lemma VersionNames()
    ensures K_VERSION == Ascii("client_version") && PACKAGE == Ascii("tcp-samples 1.0")
  {
    assert K_VERSION[..7] == Ascii("client_version")[..7] && K_VERSION[7..] == Ascii("client_version")[7..];
    assert K_VERSION == K_VERSION[..7] + K_VERSION[7..];
    assert PACKAGE[..8] == Ascii("tcp-samples 1.0")[..8] && PACKAGE[8..] == Ascii("tcp-samples 1.0")[8..];
    assert PACKAGE == PACKAGE[..8] + PACKAGE[8..];
  }

  /** The configuration after a message with one number. */
  function AppliedOne(c: Config, key: seq<byte>, n: nat): Config {
    Applied(c, Member(key, Number(n as real), NoMember))
  }

  /** Each setting is overwritten by the member of its own name and by no other. */
  lemma AppliedByName(c: Config, n: nat)
    requires n < U32
    ensures AppliedOne(c, K_BLKSIZE, n) == c.(blksize := n) && AppliedOne(c, K_RATE, n) == c.(rate := n)
    ensures AppliedOne(c, K_BURST, n) == c.(burst := n) && AppliedOne(c, K_BYTES, n) == c.(bytes := n)
    ensures AppliedOne(c, K_BLOCKS, n) == c.(blocks := n) && AppliedOne(c, K_DURATION, n) == c.(duration := n)
  {
    hide Folded, ValueInt, Taken;
    Names();
    TakenOne(K_BLKSIZE, c, n);
    TakenOne(K_RATE, c, n);
    TakenOne(K_BURST, c, n);
    TakenOne(K_BYTES, c, n);
    TakenOne(K_BLOCKS, c, n);
    TakenOne(K_DURATION, c, n);
  }

  lemma TakenOne(key: seq<byte>, c: Config, n: nat)
    requires n < U32
    ensures var ms := Member(key, Number(n as real), NoMember);
            && Taken(ms, K_BLKSIZE, U32, c.blksize) == (if Folded(key) == Folded(K_BLKSIZE) then n else c.blksize)
            && Taken(ms, K_RATE, U64, c.rate) == (if Folded(key) == Folded(K_RATE) then n else c.rate)
            && Taken(ms, K_BURST, U32, c.burst) == (if Folded(key) == Folded(K_BURST) then n else c.burst)
            && Taken(ms, K_BYTES, U32, c.bytes) == (if Folded(key) == Folded(K_BYTES) then n else c.bytes)
            && Taken(ms, K_BLOCKS, U32, c.blocks) == (if Folded(key) == Folded(K_BLOCKS) then n else c.blocks)
            && Taken(ms, K_DURATION, U32, c.duration) == (if Folded(key) == Folded(K_DURATION) then n else c.duration)
  {
    hide Taken;
    TakenNamed(key, n, K_BLKSIZE, U32, c.blksize);
    TakenNamed(key, n, K_RATE, U64, c.rate);
    TakenNamed(key, n, K_BURST, U32, c.burst);
    TakenNamed(key, n, K_BYTES, U32, c.bytes);
    TakenNamed(key, n, K_BLOCKS, U32, c.blocks);
    TakenNamed(key, n, K_DURATION, U32, c.duration);
  }

  lemma TakenNamed(key: seq<byte>, n: nat, name: seq<byte>, width: nat, was: nat)
    requires n < U32 <= width <= U64
    ensures Taken(Member(key, Number(n as real), NoMember), name, width, was)
         == if Folded(key) == Folded(name) then n else was
  {
    hide Folded, ValueInt;
    assert Find(NoMember, name) == None;
    TakenNumber(n, width);
  }

  /** A value that does not fit is cut to the low bits of the field: it differs by a multiple of the width. */
  lemma TakenWraps(ms: Members, name: seq<byte>, width: nat, was: nat)
    requires width > 0
    ensures match Find(ms, name)
            case None => Taken(ms, name, width, was) == was
            case Some(v) =>
              Taken(ms, name, width, was) < width && exists q :: ValueInt(v) == q * width + Taken(ms, name, width, was)
  {
    hide Find, ValueInt;
    if Find(ms, name).Some? {
      var n := ValueInt(Find(ms, name).value);
      assert n == n / width * width + n % width;
    }
  }

  /** The peer names a version that starts with ours. */
  predicate VersionMatches(ms: Members) {
    match Find(ms, K_VERSION)
    case Some(String(s)) => PACKAGE <= CString(s)
    case _ => false
  }

  /** mperf_conn_config as the server updates it. */
  class ConnConfig {
    var blksize: nat
    var rate: nat
    var burst: nat
    var bytes: nat
    var blocks: nat
    var duration: nat

    function Settings(): Config
      reads this
    {
      Config(blksize, rate, burst, bytes, blocks, duration)
    }

    constructor (c: Config)
      ensures Settings() == c
    {
      blksize, rate, burst, bytes, blocks, duration := c.blksize, c.rate, c.burst, c.bytes, c.blocks, c.duration;
    }

    /** mperf_recv_conf: settings are applied even when the version turns out not to match. */
    method RecvConf(input: seq<byte>, stale: seq<byte>) returns (ok: bool)
      requires |stale| == 4
      modifies this
      ensures match Read(input)
              case None => !ok && Settings() == old(Settings())
              case Some(json) =>
                && ok == VersionMatches(Named(json))
                && Settings() == Applied(old(Settings()), Named(json))
    {
      hide Read, Find, CString;
      var found, json := JsonRead(input, stale);
      if !found {
        return false;
      }
      duration := TakeField(json, K_DURATION, U32, duration);
      blksize := TakeField(json, K_BLKSIZE, U32, blksize);
      rate := TakeField(json, K_RATE, U64, rate);
      burst := TakeField(json, K_BURST, U32, burst);
      bytes := TakeField(json, K_BYTES, U32, bytes);
      blocks := TakeField(json, K_BLOCKS, U32, blocks);
      var item := GetObjectItem(json, K_VERSION);
      ok := item.Some? && item.value.String? && PACKAGE <= CString(item.value.s);
    }
  }

  method TakeField(json: Value, name: seq<byte>, width: nat, was: nat) returns (field: nat)
    requires width > 0
    ensures field == Taken(Named(json), name, width, was)
  {
    field := was;
    var item := GetObjectItem(json, name);
    if item.Some? {
      field := ValueInt(item.value) % width;
    }
  }

  /** A count of bytes as the `int` that nread returns. */
  function AsInt(n: nat): int
    requires n < U32
  {
    if n < U32 / 2 then n else n - U32
  }

  /** JSON_read; `stale` is what stands in the length variable before it is read. */
  method JsonRead(input: seq<byte>, stale: seq<byte>) returns (ok: bool, json: Value)
    requires |stale| == 4
    ensures match Read(input)
            case None => !ok
            case Some(v) => ok && json == v
  {
    hide HostOrder, JsonGrammar.Parse;
    var got := if |input| < 4 then |input| else 4;
    var size := HostOrder(input[..got] + stale[got..]);
    assert got == 4 ==> input[..got] + stale[got..] == input[..4];
    var rc := AsInt(Min(|input| - got, size));
    if rc < 0 || rc != size {
      return false, Null;
    }
    var str := input[got..got + size];
    EmptyText();
    var end;
    ok, json, end := JsonParser.ParseWithOpts(CString(str), false);
  }

  lemma EmptyText()
    ensures CString([]) == [] && JsonGrammar.Parse([], false).Err?
  {
  }

  // ---- Agreement ----

  function SomeNumber(n: nat): Option<Value> {
    Some(Number(n as real))
  }

  lemma FindOptional(key: seq<byte>, n: nat, rest: Members, name: seq<byte>)
    ensures Find(Optional(key, n, rest), name)
         == if n != 0 && Folded(key) == Folded(name) then SomeNumber(n) else Find(rest, name)
  {
    hide Folded;
  }

  /** A lookup meets the members in the order in which they were added. */
  lemma FindDescribed(c: Config, version: seq<byte>, name: seq<byte>)
    ensures var f := Folded(name);
            Find(Described(c, version), name)
            == if Folded(K_DURATION) == f then SomeNumber(c.duration)
               else if c.blksize != 0 && Folded(K_BLKSIZE) == f then SomeNumber(c.blksize)
               else if c.rate != 0 && Folded(K_RATE) == f then SomeNumber(c.rate)
               else if c.burst != 0 && Folded(K_BURST) == f then SomeNumber(c.burst)
               else if c.bytes != 0 && Folded(K_BYTES) == f then SomeNumber(c.bytes)
               else if c.blocks != 0 && Folded(K_BLOCKS) == f then SomeNumber(c.blocks)
               else if Folded(K_VERSION) == f then Some(String(version))
               else None
  {
    hide Folded;
    assert Find(FromVersion(version), name)
        == if Folded(K_VERSION) == Folded(name) then Some(String(version)) else None;
    hide FromVersion, Optional;
    FindOptional(K_BLOCKS, c.blocks, FromVersion(version), name);
    FindOptional(K_BYTES, c.bytes, FromBlocks(c, version), name);
    FindOptional(K_BURST, c.burst, FromBytes(c, version), name);
    FindOptional(K_RATE, c.rate, FromBurst(c, version), name);
    FindOptional(K_BLKSIZE, c.blksize, FromRate(c, version), name);
  }

  lemma LowerCase(key: seq<byte>)
    requires forall k :: 0 <= k < |key| ==> 0x5A < key[k]
    ensures Folded(key) == key
  {
    hide CString;
    WholeText(key);
  }

  /** The seven names are in lower case, and differ. */
  lemma Names()
    ensures && Folded(K_DURATION) == K_DURATION && Folded(K_BLKSIZE) == K_BLKSIZE && Folded(K_RATE) == K_RATE
            && Folded(K_BURST) == K_BURST && Folded(K_BYTES) == K_BYTES && Folded(K_BLOCKS) == K_BLOCKS
            && Folded(K_VERSION) == K_VERSION && K_BURST != K_BYTES
  {
    hide Folded;
    LowerCase(K_DURATION);
    LowerCase(K_BLKSIZE);
    LowerCase(K_RATE);
    LowerCase(K_BURST);
    LowerCase(K_BYTES);
    LowerCase(K_BLOCKS);
    LowerCase(K_VERSION);
    assert K_BURST[1] != K_BYTES[1];
  }

  /** What the server makes of a value: one that was left out keeps the server's own. */
  function Kept(n: nat, was: nat): nat {
    if n != 0 then n else was
  }

  lemma TakenNumber(n: nat, width: nat)
    requires n < width <= U64 && n < 1000000000000000
    ensures ValueInt(Number(n as real)) % width == n
  {
  }

  lemma TakenDescribed(c: Config, version: seq<byte>, was: Config)
    requires InRange(c) && Announced(version)
    ensures Applied(was, Described(c, version))
         == Config(Kept(c.blksize, was.blksize), Kept(c.rate, was.rate), Kept(c.burst, was.burst),
                   Kept(c.bytes, was.bytes), Kept(c.blocks, was.blocks), c.duration)
    ensures VersionMatches(Described(c, version)) <==> PACKAGE <= version
  {
    hide Folded, Find, Described, CString, ValueInt;
    Names();
    FindDescribed(c, version, K_DURATION);
    FindDescribed(c, version, K_BLKSIZE);
    FindDescribed(c, version, K_RATE);
    FindDescribed(c, version, K_BURST);
    FindDescribed(c, version, K_BYTES);
    FindDescribed(c, version, K_BLOCKS);
    FindDescribed(c, version, K_VERSION);
    TakenNumber(c.duration, U32);
    TakenNumber(c.blksize, U32);
    TakenNumber(c.rate, U64);
    TakenNumber(c.burst, U32);
    TakenNumber(c.bytes, U32);
    TakenNumber(c.blocks, U32);
    WholeText(version);
  }

  /** Reading a frame, after its state byte, gives back the members. */
  lemma AnyFrameRead(ms: Members)
    requires Framable(ms) && RawFreeMembers(ms) && Nesting(Object(ms)) <= NESTING_LIMIT
    ensures |FrameOf(ms)| >= 5 && FrameOf(ms)[0] == PARAM_EXCHANGE
    ensures Read(FrameOf(ms)[1..]) == Some(Object(ms))
  {
    hide Text, NetworkOrder, HostOrder, Nesting, RawFreeMembers, PrintableMembers, CString, NulFree, JsonGrammar.Parse;
    var v := Object(ms);
    var text := Text(v, false, 0);
    var order := NetworkOrder(|text|);
    OrderRoundTrip(|text|);
    FrameSlices(PARAM_EXCHANGE, order, text);
    WholeText(text);
    JsonRoundTrip.ParsePrinted(v, false, false);
  }

  lemma FrameSlices(state: byte, order: seq<byte>, text: seq<byte>)
    requires |order| == 4
    ensures var input := ([state] + order + text)[1..];
            |input| == 4 + |text| && input[..4] == order && input[4..4 + |text|] == text
  {
  }

  lemma FrameRead(c: Config, version: seq<byte>)
    requires InRange(c) && Announced(version)
    ensures |Frame(c, version)| >= 5 && Frame(c, version)[0] == PARAM_EXCHANGE
    ensures Read(Frame(c, version)[1..]) == Some(Object(Described(c, version)))
  {
    hide Described, Text, FrameOf;
    DescribedPrints(c, version);
    AnyFrameRead(Described(c, version));
  }

  /**
   * A server in state `was` that receives the frame of `c` accepts it and
   * ends up with the client's configuration exactly when every field the
   * client left out is one the server agrees on.
   */
  lemma Agreement(c: Config, version: seq<byte>, was: Config)
    requires InRange(c) && Announced(version)
    ensures Read(Frame(c, version)[1..]).Some?
    ensures var ms := Named(Read(Frame(c, version)[1..]).value);
            && (VersionMatches(ms) <==> PACKAGE <= version)
            && (Applied(was, ms) == c <==>
                  && (c.blksize == 0 ==> was.blksize == 0) && (c.rate == 0 ==> was.rate == 0)
                  && (c.burst == 0 ==> was.burst == 0) && (c.bytes == 0 ==> was.bytes == 0)
                  && (c.blocks == 0 ==> was.blocks == 0))
  {
    hide Described, Applied, Read, Frame, VersionMatches;
    FrameRead(c, version);
    TakenDescribed(c, version, was);
  }

  /** With the built-in settings, only a block size of zero is lost. */
  lemma DefaultAgreement(c: Config, version: seq<byte>)
    requires InRange(c) && Announced(version)
    ensures Read(Frame(c, version)[1..]).Some?
    ensures Applied(DEFAULTS, Named(Read(Frame(c, version)[1..]).value)) == c <==> c.blksize != 0
  {
    hide Applied, Read, Frame;
    Agreement(c, version, DEFAULTS);
  }
}
