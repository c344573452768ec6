/** The in-cluster apiserver address derived from the service block. */
module ServiceGateway {
  import opened Text

  const DEFAULT_SVC_CIDR := "172.17.0.0/16"

  /** `".".join(cidr.split(".")[:3] + ["1"])`. */
  function Gateway(cidr: string): string {
    var parts := Split(cidr, '.');
    Join(".", (if |parts| <= 3 then parts else parts[..3]) + ["1"])
  }

  /** `a or b or default`: absent and empty both count as nothing. */
  function FirstNonEmpty(a: Option<string>, b: Option<string>, default: string): string {
    if a.GetOr("") != "" then a.value else if b.GetOr("") != "" then b.value else default
  }

  /** The certificate name the installer adds. */
  function InstallerSan(vmSvc: Option<string>, clusterSvc: Option<string>): string {
    Gateway(FirstNonEmpty(vmSvc, clusterSvc, DEFAULT_SVC_CIDR))
  }

  /** The `k8sServiceHost` value of the first releases. */
  function ServiceHost(cpIp: string, clusterSvc: Option<string>): string {
    if cpIp != "" then cpIp else Gateway(clusterSvc.GetOr(DEFAULT_SVC_CIDR))
  }

  // ----- IPv4 blocks -----

  /** Section 3.1 of RFC 4632: a base address and a prefix length. */
  datatype Block = Block(address: nat, len: nat)

  function Size(len: nat): (r: nat)
    requires len <= 32
    ensures r > 0
    decreases 32 - len
  {
    if len == 32 then 1 else 2 * Size(len + 1)
  }

  ghost predicate Aligned(b: Block) {
    b.address < 0x1_0000_0000 && b.len <= 32 && b.address % Size(b.len) == 0
  }

  ghost predicate InBlock(b: Block, x: int)
    requires b.len <= 32
  {
    b.address <= x < b.address + Size(b.len)
  }

  function Octets(x: nat): (r: seq<string>)
    ensures |r| == 4
  {
    [Dec(x / 0x100_0000), Dec(x / 0x1_0000 % 256), Dec(x / 0x100 % 256), Dec(x % 256)]
  }

  /** Dotted-decimal notation. */
  function Dotted(x: nat): string { Join(".", Octets(x)) }

  function BlockText(b: Block): string { Dotted(b.address) + "/" + Dec(b.len) }

  /** The address with its last octet set to one. */
  function LastOctetOne(x: nat): nat { x - x % 256 + 1 }

  lemma {:induction false} NoDotInDec(n: nat)
    ensures '.' !in Dec(n)
  {
  }

  lemma {:induction false} NoDotInOctets(x: nat)
    ensures forall i | 0 <= i < 4 :: '.' !in Octets(x)[i]
  {
    NoDotInDec(x / 0x100_0000);
    NoDotInDec(x / 0x1_0000 % 256);
    NoDotInDec(x / 0x100 % 256);
    NoDotInDec(x % 256);
    hide Dec;
  }

  lemma {:induction false} SplitFour(o: seq<string>, tail: string)
    requires |o| == 4 && '.' !in tail && forall i | 0 <= i < 4 :: '.' !in o[i]
    ensures Split(Join(".", o) + tail, '.') == [o[0], o[1], o[2], o[3] + tail]
  {
    var parts := [o[0], o[1], o[2], o[3] + tail];
    assert forall i | 0 <= i < 4 :: '.' !in parts[i];
    JoinLast(o, tail);
    hide Join, Split;
    SplitJoin(parts, '.');
    assert ['.'] == ".";
  }

  lemma {:induction false} SplitBlockText(b: Block)
    ensures var o := Octets(b.address);
      Split(BlockText(b), '.') == [o[0], o[1], o[2], o[3] + ("/" + Dec(b.len))]
  {
    NoDotInOctets(b.address);
    NoDotInDec(b.len);
    hide Dec, Octets, Split, Join;
    var o := Octets(b.address);
    SplitFour(o, "/" + Dec(b.len));
    assert Join(".", o) + "/" + Dec(b.len) == Join(".", o) + ("/" + Dec(b.len));
  }

  lemma {:induction false} JoinLast(o: seq<string>, tail: string)
    requires |o| == 4
    ensures Join(".", [o[0], o[1], o[2], o[3] + tail]) == Join(".", o) + tail
  {
    JoinFour(o);
    JoinFour([o[0], o[1], o[2], o[3] + tail]);
  }

  lemma {:induction false} LastOneDigits(x: nat)
    ensures LastOctetOne(x) % 256 == 1
    ensures LastOctetOne(x) / 0x100 == x / 0x100
    ensures LastOctetOne(x) / 0x1_0000 == x / 0x1_0000
    ensures LastOctetOne(x) / 0x100_0000 == x / 0x100_0000
  {
    var y := LastOctetOne(x);
    var q := x / 0x100;
    assert y == q * 0x100 + 1 && x == q * 0x100 + x % 0x100;
    hide LastOctetOne;
    LowDigit(q, 1);
    HighPart(x, 0x100);
    HighPart(y, 0x100);
    HighPart(x, 0x1_0000);
    HighPart(y, 0x1_0000);
  }

  lemma {:induction false} LowDigit(q: nat, d: nat)
    requires d < 0x100
    ensures (q * 0x100 + d) / 0x100 == q && (q * 0x100 + d) % 0x100 == d
  {
  }

  lemma {:induction false} OctetsOfLastOne(x: nat)
    ensures Octets(LastOctetOne(x)) == Octets(x)[..3] + ["1"]
  {
    assert Dec(1) == "1";
    LastOneDigits(x);
    hide Dec, LastOctetOne;
  }

  lemma {:induction false} FourDigits(x: nat, y: nat)
    requires x / 0x100_0000 == y / 0x100_0000 && x / 0x1_0000 % 256 == y / 0x1_0000 % 256
    requires x / 0x100 % 256 == y / 0x100 % 256 && x % 256 == y % 256
    ensures x == y
  {
    HighPart(x, 0x1_0000);
    HighPart(y, 0x1_0000);
    assert x / 0x1_0000 == y / 0x1_0000;
    HighPart(x, 0x100);
    HighPart(y, 0x100);
    assert x / 0x100 == y / 0x100;
  }

  lemma {:induction false} HighPart(x: nat, unit: nat)
    requires unit == 0x100 || unit == 0x1_0000
    ensures x / (unit * 0x100) == x / unit / 0x100
    ensures x / unit == x / (unit * 0x100) * 0x100 + x / unit % 0x100
  {
    if unit == 0x100 {
      assert x / 0x1_0000 == x / 0x100 / 0x100;
    } else {
      assert x / 0x100_0000 == x / 0x1_0000 / 0x100;
    }
  }

  /** Addresses are told apart by their dotted form. */
  lemma {:induction false} DottedInjective(x: nat, y: nat)
    requires Dotted(x) == Dotted(y)
    ensures x == y
  {
    NoDotInOctets(x);
    NoDotInOctets(y);
    assert Octets(x) == Octets(y) by {
      hide Dec, Octets, Split, Join;
      SplitJoin(Octets(x), '.');
      SplitJoin(Octets(y), '.');
    }
    OctetsInjective(x, y);
  }

  lemma {:induction false} OctetsInjective(x: nat, y: nat)
    requires Octets(x) == Octets(y)
    ensures x == y
  {
    hide Dec;
    assert forall i | 0 <= i < 4 :: Octets(x)[i] == Octets(y)[i];
    DecInjective(x / 0x100_0000, y / 0x100_0000);
    DecInjective(x / 0x1_0000 % 256, y / 0x1_0000 % 256);
    DecInjective(x / 0x100 % 256, y / 0x100 % 256);
    DecInjective(x % 256, y % 256);
    FourDigits(x, y);
  }

  lemma {:induction false} SizeStep(len: nat)
    requires len < 32
    ensures Size(len) == 2 * Size(len + 1)
  {
  }

  lemma {:induction false} SmallSizes()
    ensures Size(32) == 1 && Size(31) == 2 && Size(30) == 4 && Size(29) == 8 && Size(28) == 16
    ensures Size(27) == 32 && Size(26) == 64 && Size(25) == 128 && Size(24) == 256
  {
    assert Size(32) == 1;
    hide Size;
    SizeStep(31); SizeStep(30); SizeStep(29); SizeStep(28);
    SizeStep(27); SizeStep(26); SizeStep(25); SizeStep(24);
  }

  lemma {:induction false} LargeSize(len: nat)
    requires len <= 24
    ensures Size(len) % 256 == 0
    decreases 24 - len
  {
    if len < 24 {
      LargeSize(len + 1);
      SizeStep(len);
      hide Size;
    } else {
      SmallSizes();
    }
  }

  lemma {:induction false} MultipleOfMultiple(x: nat, size: nat)
    requires size > 0 && x % size == 0 && size % 256 == 0
    ensures x % 256 == 0
  {
    var m, n := x / size, size / 256;
    assert x == m * size && size == n * 256;
    assert x == (m * n) * 256;
  }

  lemma {:induction false} GatewayText(b: Block)
    ensures Gateway(BlockText(b)) == Dotted(LastOctetOne(b.address))
  {
    SplitBlockText(b);
    OctetsOfLastOne(b.address);
    hide Dec, Octets, Split, Join, LastOctetOne, BlockText;
    assert Split(BlockText(b), '.')[..3] == Octets(b.address)[..3];
  }

  lemma {:induction false} InSmallBlock(x: nat, size: nat, len: nat)
    requires 24 <= len <= 32
    requires size == [256, 128, 64, 32, 16, 8, 4, 2, 1][len - 24] && x % size == 0
    ensures x <= LastOctetOne(x) < x + size <==> (len < 32 && x % 256 == 0) || (len == 32 && x % 256 == 1)
  {
    if x % 256 == 0 || len == 32 {
    } else {
      assert x % 256 >= 2;
    }
  }

  /** The gateway of a block is its base address with the last octet set to one. It
      is the base plus one exactly when the base ends in zero, and lies in the block
      exactly when that is so and the block is more than one address, or when the
      block is the single address that ends in one. */
  lemma {:induction false} GatewayOfBlock(b: Block)
    requires Aligned(b)
    ensures Gateway(BlockText(b)) == Dotted(LastOctetOne(b.address))
    ensures Gateway(BlockText(b)) == Dotted(b.address + 1) <==> b.address % 256 == 0
    ensures InBlock(b, LastOctetOne(b.address)) <==>
            (b.len < 32 && b.address % 256 == 0) || (b.len == 32 && b.address % 256 == 1)
    ensures b.len <= 24 ==> b.address % 256 == 0
  {
    GatewayText(b);
    hide Gateway, BlockText, Dotted;
    if Dotted(LastOctetOne(b.address)) == Dotted(b.address + 1) {
      DottedInjective(LastOctetOne(b.address), b.address + 1);
    }
    BlockHoldsLastOne(b);
  }

  lemma {:induction false} BlockHoldsLastOne(b: Block)
    requires Aligned(b)
    ensures InBlock(b, LastOctetOne(b.address)) <==>
            (b.len < 32 && b.address % 256 == 0) || (b.len == 32 && b.address % 256 == 1)
    ensures b.len <= 24 ==> b.address % 256 == 0
  {
    hide Size;
    if b.len <= 24 {
      LargeSize(b.len);
      MultipleOfMultiple(b.address, Size(b.len));
    } else {
      SmallSizes();
      InSmallBlock(b.address, Size(b.len), b.len);
    }
  }

  /** For every aligned block of prefix length at most 24, the derived gateway is the
      network address plus one, and lies in the block. */
  lemma {:induction false} GatewayIsNetworkPlusOne(b: Block)
    requires Aligned(b) && b.len <= 24
    ensures Gateway(BlockText(b)) == Dotted(b.address + 1) && InBlock(b, b.address + 1)
  {
    GatewayOfBlock(b);
  }

  /** Installer and helm derive the same address from one service block exactly when
      it is not given as an empty text: the installer replaces that by the default,
      helm does not. */
  lemma {:induction false} DerivationsAgreeExactly(svc: Option<string>)
    ensures InstallerSan(svc, svc) == ServiceHost("", svc) <==> svc != Some("")
  {
    if svc == Some("") {
      assert Split("", '.') == [""];
      assert Gateway("") == "" + "." + "1" by { assert [""] + ["1"] == ["", "1"] && ["", "1"][1..] == ["1"]; }
      GatewayStart(DEFAULT_SVC_CIDR);
    }
  }

  /** The address helm hands to the first releases: that of the control plane where it is
      known; else the one behind the network address of the service block, which for the
      default block is 172.17.0.1. */
  lemma {:induction false} HelmHost(cpIp: string, svc: Option<string>, b: Block)
    ensures cpIp != "" ==> ServiceHost(cpIp, svc) == cpIp
    ensures Aligned(b) && b.len <= 24 ==> ServiceHost("", Some(BlockText(b))) == Dotted(b.address + 1)
    ensures ServiceHost("", None) == "172.17.0.1" == InstallerSan(None, None)
  {
    if Aligned(b) && b.len <= 24 { GatewayIsNetworkPlusOne(b); }
    DefaultGateway();
    hide Gateway, BlockText, Dotted;
  }

  lemma {:induction false} DefaultText()
    ensures Join(".", ["172", "17", "0", "0/16"]) == DEFAULT_SVC_CIDR && Join(".", ["172", "17", "0", "1"]) == "172.17.0.1"
  {
    JoinFour(["172", "17", "0", "0/16"]);
    JoinFour(["172", "17", "0", "1"]);
    hide Join;
    assert "172" + "." + "17" + "." + "0" + "." + "0/16" == DEFAULT_SVC_CIDR;
  }

  lemma {:induction false} GatewayOfFour(a: string, b: string, c: string, d: string)
    requires '.' !in a && '.' !in b && '.' !in c && '.' !in d
    ensures Gateway(Join(".", [a, b, c, d])) == Join(".", [a, b, c, "1"])
  {
    var parts := [a, b, c, d];
    hide Join, Split;
    assert ['.'] == ".";
    SplitJoin(parts, '.');
    assert parts[..3] + ["1"] == [a, b, c, "1"];
  }

  lemma {:induction false} DefaultGateway()
    ensures Gateway(DEFAULT_SVC_CIDR) == "172.17.0.1"
  {
    assert '.' !in "172" && '.' !in "17" && '.' !in "0" && '.' !in "0/16";
    DefaultText();
    hide Gateway, DEFAULT_SVC_CIDR, Join;
    GatewayOfFour("172", "17", "0", "0/16");
  }

  /** The four numbers of an address, and the address they stand for. */
  lemma {:induction false} OctetsDenote(x: nat)
    requires x < 0x1_0000_0000
    ensures forall i | 0 <= i < 4 :: DigitsToNat(Octets(x)[i]) < 256
    ensures DigitsToNat(Octets(x)[0]) * 0x100_0000 + DigitsToNat(Octets(x)[1]) * 0x1_0000 +
            DigitsToNat(Octets(x)[2]) * 0x100 + DigitsToNat(Octets(x)[3]) == x
  {
    DecRoundTrip(x / 0x100_0000);
    DecRoundTrip(x / 0x1_0000 % 256);
    DecRoundTrip(x / 0x100 % 256);
    DecRoundTrip(x % 256);
    hide Dec, DigitsToNat;
    HighPart(x, 0x1_0000);
    HighPart(x, 0x100);
    assert x == x / 0x100 * 0x100 + x % 0x100;
  }

  lemma {:induction false} GatewayStart(cidr: string)
    requires cidr != "" && cidr[0] != '.'
    ensures Gateway(cidr)[..1] == [cidr[0]]
  {
    var parts := Split(cidr, '.');
    var j := Find(cidr, '.', 0);
    assert parts[0] == if j == -1 then cidr else cidr[..j];
  }
}
