/**
  Length-prefixed canonical bytes of the signed records: membership credentials, node
  certificates, spell contracts and research records.
 */
module Canonical {
  import opened ByteStrings
  import opened MachineIntegers
  import opened Order

  const LENGTH_LIMIT: nat := 0x1_0000_0000
  const U64_LIMIT: nat := 0x1_0000_0000_0000_0000

  // ---------- big-endian integers ----------

  function Pow256(width: nat): nat {
    if width == 0 then 1 else 256 * Pow256(width - 1)
  }

  function BigEndian(n: nat, width: nat): (r: Bytes)
    ensures |r| == width
  {
    if width == 0 then [] else BigEndian(n / 256, width - 1) + [n % 256]
  }

  lemma {:induction false} BigEndianInjective(m: nat, n: nat, width: nat)
    requires m < Pow256(width) && n < Pow256(width) && BigEndian(m, width) == BigEndian(n, width)
    ensures m == n
  {
    if width > 0 {
      var a, b := BigEndian(m, width), BigEndian(n, width);
      assert a[..width - 1] == BigEndian(m / 256, width - 1) && b[..width - 1] == BigEndian(n / 256, width - 1);
      assert a[width - 1] == m % 256 && b[width - 1] == n % 256;
      BigEndianInjective(m / 256, n / 256, width - 1);
    }
  }

  /** The two's complement pattern of a signed 64-bit integer. */
  function Pattern(x: I64): (r: nat)
    ensures r < U64_LIMIT
  {
    if x < 0 then x + U64_LIMIT else x
  }

  // ---------- parts ----------

  /** A length prefix is a 32-bit cast, so it wraps for longer values. */
  function Field(value: Bytes): Bytes {
    BigEndian(|value| % LENGTH_LIMIT, 4) + value
  }

  function Fields(values: seq<Bytes>): Bytes {
    if |values| == 0 then [] else Field(values[0]) + Fields(values[1..])
  }

  datatype Part =
    | Fixed(value: nat, width: nat)
    | Text(bytes: Bytes)
    | Listing(values: seq<Bytes>)

  function EncodePart(p: Part): Bytes {
    match p
    case Fixed(value, width) => BigEndian(value, width)
    case Text(bytes) => Field(bytes)
    case Listing(values) => BigEndian(|values| % LENGTH_LIMIT, 4) + Fields(values)
  }

  function Encode(parts: seq<Part>): Bytes {
    if |parts| == 0 then [] else EncodePart(parts[0]) + Encode(parts[1..])
  }

  predicate Bounded(p: Part) {
    match p
    case Fixed(value, width) => value < Pow256(width)
    case Text(bytes) => |bytes| < LENGTH_LIMIT
    case Listing(values) => |values| < LENGTH_LIMIT && forall v :: v in values ==> |v| < LENGTH_LIMIT
  }

  predicate SameKind(p: Part, q: Part) {
    match (p, q)
    case (Fixed(_, w), Fixed(_, v)) => w == v
    case (Text(_), Text(_)) => true
    case (Listing(_), Listing(_)) => true
    case _ => false
  }

  predicate SameShape(a: seq<Part>, b: seq<Part>) {
    |a| == |b| && forall i :: 0 <= i < |a| ==> SameKind(a[i], b[i])
  }

  lemma {:induction false} FixedSplit(m: nat, n: nat, width: nat, x: Bytes, y: Bytes)
    requires m < Pow256(width) && n < Pow256(width)
    requires BigEndian(m, width) + x == BigEndian(n, width) + y
    ensures m == n && x == y
  {
    var a, b := BigEndian(m, width) + x, BigEndian(n, width) + y;
    assert a[..width] == BigEndian(m, width) && b[..width] == BigEndian(n, width);
    assert a[width..] == x && b[width..] == y;
    BigEndianInjective(m, n, width);
  }

  lemma {:induction false} FieldSplit(u: Bytes, v: Bytes, x: Bytes, y: Bytes)
    requires |u| < LENGTH_LIMIT && |v| < LENGTH_LIMIT && Field(u) + x == Field(v) + y
    ensures u == v && x == y
  {
    hide Field;
    assert Pow256(4) == LENGTH_LIMIT;
    FieldThen(u, x);
    FieldThen(v, y);
    FixedSplit(|u|, |v|, 4, u + x, v + y);
    FrontAndRest(u, x);
    FrontAndRest(v, y);
  }

  lemma {:induction false} FieldThen(u: Bytes, x: Bytes)
    requires |u| < LENGTH_LIMIT
    ensures Field(u) + x == BigEndian(|u|, 4) + (u + x)
  {
    hide BigEndian;
  }

  lemma {:induction false} FrontAndRest(u: Bytes, x: Bytes)
    ensures (u + x)[..|u|] == u && (u + x)[|u|..] == x
  {
  }

  lemma {:induction false} FieldsThen(us: seq<Bytes>, x: Bytes)
    requires |us| > 0
    ensures Fields(us) + x == Field(us[0]) + (Fields(us[1..]) + x)
  {
    hide Field;
  }

  lemma {:induction false} FieldsSplit(us: seq<Bytes>, vs: seq<Bytes>, x: Bytes, y: Bytes)
    requires |us| == |vs| && Fields(us) + x == Fields(vs) + y
    requires forall v :: v in us || v in vs ==> |v| < LENGTH_LIMIT
    ensures us == vs && x == y
    decreases |us|
  {
    hide Field, BigEndian;
    if |us| > 0 {
      var a, b := Fields(us[1..]) + x, Fields(vs[1..]) + y;
      FieldsThen(us, x);
      FieldsThen(vs, y);
      FieldSplit(us[0], vs[0], a, b);
      FieldsSplit(us[1..], vs[1..], x, y);
      assert us == [us[0]] + us[1..] && vs == [vs[0]] + vs[1..];
    } else {
      assert Fields(us) + x == x && Fields(vs) + y == y;
    }
  }

  lemma {:induction false} ListingThen(us: seq<Bytes>, x: Bytes)
    requires Bounded(Listing(us))
    ensures EncodePart(Listing(us)) + x == BigEndian(|us|, 4) + (Fields(us) + x)
  {
    hide BigEndian, Fields;
  }

  lemma {:induction false} ListingSplit(us: seq<Bytes>, vs: seq<Bytes>, x: Bytes, y: Bytes)
    requires Bounded(Listing(us)) && Bounded(Listing(vs))
    requires EncodePart(Listing(us)) + x == EncodePart(Listing(vs)) + y
    ensures us == vs && x == y
  {
    hide BigEndian, Fields;
    assert Pow256(4) == LENGTH_LIMIT by {
      WidthLimits();
    }
    ListingThen(us, x);
    ListingThen(vs, y);
    FixedSplit(|us|, |vs|, 4, Fields(us) + x, Fields(vs) + y);
    FieldsSplit(us, vs, x, y);
  }

  lemma {:induction false} PartSplit(p: Part, q: Part, x: Bytes, y: Bytes)
    requires SameKind(p, q) && Bounded(p) && Bounded(q) && EncodePart(p) + x == EncodePart(q) + y
    ensures p == q && x == y
  {
    hide BigEndian, Fields, Field;
    match (p, q) {
      case (Fixed(m, w), Fixed(n, _)) => FixedSplit(m, n, w, x, y);
      case (Text(u), Text(v)) => FieldSplit(u, v, x, y);
      case (Listing(us), Listing(vs)) => ListingSplit(us, vs, x, y);
    }
  }

  /** Equal bytes of one shape come only from equal parts. */
  lemma {:induction false} EncodeUnique(a: seq<Part>, b: seq<Part>)
    requires SameShape(a, b) && Encode(a) == Encode(b)
    requires forall p :: p in a || p in b ==> Bounded(p)
    ensures a == b
    decreases |a|
  {
    if |a| > 0 {
      PartSplit(a[0], b[0], Encode(a[1..]), Encode(b[1..]));
      EncodeUnique(a[1..], b[1..]);
      assert a == [a[0]] + a[1..] && b == [b[0]] + b[1..];
    }
  }

  /** Encodings whose leading texts differ never collide, whatever follows. */
  lemma {:induction false} TagsSeparate(a: seq<Part>, b: seq<Part>)
    requires |a| > 0 && |b| > 0 && a[0].Text? && b[0].Text? && Bounded(a[0]) && Bounded(b[0])
    requires a[0] != b[0]
    ensures Encode(a) != Encode(b)
  {
    if Encode(a) == Encode(b) {
      PartSplit(a[0], b[0], Encode(a[1..]), Encode(b[1..]));
    }
  }

  /** At 2^32 bytes the length prefix wraps and different fields stop being told apart. */
  lemma {:induction false} LengthWraps(v: Bytes)
    requires |v| == LENGTH_LIMIT
    ensures Field(v) + [] == Field([]) + v && v != []
  {
    assert Field(v) == BigEndian(0, 4) + v && Field([]) == BigEndian(0, 4) + [];
    assert Field([]) + v == BigEndian(0, 4) + ([] + v);
  }

  // ---------- the records ----------

  function Ascii(text: string): (r: Bytes)
    ensures |r| == |text|
    ensures forall i :: 0 <= i < |r| && (text[i] as int) < 128 ==> r[i] == text[i] as int
  {
    seq(|text|, i requires 0 <= i < |text| => AsciiByte(text[i]))
  }

  function AsciiByte(ch: char): Byte {
    if (ch as int) < 128 then ch as int else 63
  }

  datatype MembershipClaims = MembershipClaims(
    credentialVersion: U16,
    communityId: Bytes,
    memberPublicKey: Bytes,
    memberId: Bytes,
    roles: seq<Bytes>,
    issuedAt: I64,
    expiresAt: I64,
    serial: U64,
    issuerPublicKey: Bytes)

  function MembershipParts(c: MembershipClaims): seq<Part> {
    [ Text(Ascii("acm.membership.v1")),
      Fixed(c.credentialVersion, 2),
      Text(c.communityId),
      Text(c.memberPublicKey),
      Text(c.memberId),
      Listing(SortBytes(c.roles)),
      Fixed(Pattern(c.issuedAt), 8),
      Fixed(Pattern(c.expiresAt), 8),
      Fixed(c.serial, 8),
      Text(c.issuerPublicKey) ]
  }

  datatype NodeCertificateClaims = NodeCertificateClaims(
    certificateVersion: U16,
    nodeId: Bytes,
    communityId: Bytes,
    ownerMemberId: Bytes,
    endpointPublicKey: Bytes,
    allowedRoles: seq<Bytes>,
    maxStorageBytes: U64,
    issuedAt: I64,
    expiresAt: I64)

  function CertificateParts(c: NodeCertificateClaims): seq<Part> {
    [ Text(Ascii("acm.node-certificate.v1")),
      Fixed(c.certificateVersion, 2),
      Text(c.nodeId),
      Text(c.communityId),
      Text(c.ownerMemberId),
      Text(c.endpointPublicKey),
      Listing(SortBytes(c.allowedRoles)),
      Fixed(c.maxStorageBytes, 8),
      Fixed(Pattern(c.issuedAt), 8),
      Fixed(Pattern(c.expiresAt), 8) ]
  }

  datatype SpellContract = SpellContract(
    contractVersion: U16,
    issuerPublicKey: Bytes,
    action: Bytes,
    dataScopes: seq<Bytes>,
    subjectIds: seq<Bytes>,
    maxAmountMinor: U64,
    maxInvocations: U32,
    humanApprovalRequired: bool,
    reversible: bool,
    issuedAt: I64,
    expiresAt: I64)

  function Flag(b: bool): nat {
    if b then 1 else 0
  }

  function SpellParts(c: SpellContract): seq<Part> {
    [ Text(Ascii("acm.spell-contract.v1")),
      Fixed(c.contractVersion, 2),
      Text(c.issuerPublicKey),
      Text(c.action),
      Listing(c.dataScopes),
      Listing(c.subjectIds),
      Fixed(c.maxAmountMinor, 8),
      Fixed(c.maxInvocations, 4),
      Fixed(Flag(c.humanApprovalRequired), 1),
      Fixed(Flag(c.reversible), 1),
      Fixed(Pattern(c.issuedAt), 8),
      Fixed(Pattern(c.expiresAt), 8) ]
  }

  datatype ResearchKind =
    | Hypothesis | Dataset | Experiment | Analysis | Failure
    | Decision | Claim | Reproduction | Correction | Retraction

  function KindName(k: ResearchKind): Bytes {
    match k
    case Hypothesis => Ascii("Hypothesis")
    case Dataset => Ascii("Dataset")
    case Experiment => Ascii("Experiment")
    case Analysis => Ascii("Analysis")
    case Failure => Ascii("Failure")
    case Decision => Ascii("Decision")
    case Claim => Ascii("Claim")
    case Reproduction => Ascii("Reproduction")
    case Correction => Ascii("Correction")
    case Retraction => Ascii("Retraction")
  }

  datatype ResearchRecord = ResearchRecord(
    recordVersion: U16,
    projectId: Bytes,
    kind: ResearchKind,
    parentIds: seq<Bytes>,
    contentCid: Bytes,
    authorPublicKey: Bytes,
    createdAt: I64)

  function ResearchParts(r: ResearchRecord): seq<Part> {
    [ Text(Ascii("acm.research-record.v1")),
      Fixed(r.recordVersion, 2),
      Text(r.projectId),
      Text(KindName(r.kind)),
      Listing(r.parentIds),
      Text(r.contentCid),
      Text(r.authorPublicKey),
      Fixed(Pattern(r.createdAt), 8) ]
  }

  /** The four kinds of signed record; spells and research records also sign their identifier. */
  datatype Record =
    | Membership(membership: MembershipClaims)
    | Certificate(certificate: NodeCertificateClaims)
    | Spell(spell: SpellContract, contractId: Bytes)
    | Research(research: ResearchRecord, recordId: Bytes)

  function Parts(r: Record): seq<Part> {
    match r
    case Membership(c) => MembershipParts(c)
    case Certificate(c) => CertificateParts(c)
    case Spell(c, id) => SpellParts(c) + [Text(id)]
    case Research(c, id) => ResearchParts(c) + [Text(id)]
  }

  function CanonicalBytes(r: Record): Bytes {
    Encode(Parts(r))
  }

  /** Every text and every list is shorter than 2^32. */
  predicate Short(r: Record) {
    forall p :: p in Parts(r) ==> (p.Text? || p.Listing? ==> Bounded(p))
  }

  /** The same record, roles taken as a bag where the encoding sorts them. */
  predicate SameRecord(a: Record, b: Record) {
    match (a, b)
    case (Membership(c), Membership(d)) => multiset(c.roles) == multiset(d.roles) && c.(roles := d.roles) == d
    case (Certificate(c), Certificate(d)) =>
      multiset(c.allowedRoles) == multiset(d.allowedRoles) && c.(allowedRoles := d.allowedRoles) == d
    case _ => a == b
  }

  lemma {:induction false} WidthLimits()
    ensures Pow256(1) == 0x100 && Pow256(2) == 0x1_0000 && Pow256(4) == LENGTH_LIMIT && Pow256(8) == U64_LIMIT
  {
    assert Pow256(2) == 256 * Pow256(1);
    assert Pow256(3) == 256 * Pow256(2);
    assert Pow256(4) == 256 * Pow256(3);
    assert Pow256(5) == 256 * Pow256(4);
    assert Pow256(6) == 256 * Pow256(5);
    assert Pow256(7) == 256 * Pow256(6);
  }

  lemma {:induction false} ShortIsBounded(r: Record)
    requires Short(r)
    ensures forall p :: p in Parts(r) ==> Bounded(p)
  {
    hide Ascii, SortBytes, Pow256, KindName, Pattern;
    WidthLimits();
    match r {
      case Membership(c) =>
        assert forall p :: p in MembershipParts(c) && p.Fixed? ==> p.value < Pow256(p.width);
      case Certificate(c) =>
        assert forall p :: p in CertificateParts(c) && p.Fixed? ==> p.value < Pow256(p.width);
      case Spell(c, id) =>
        assert forall p :: p in SpellParts(c) + [Text(id)] && p.Fixed? ==> p.value < Pow256(p.width);
      case Research(c, id) =>
        assert forall p :: p in ResearchParts(c) + [Text(id)] && p.Fixed? ==> p.value < Pow256(p.width);
    }
  }

  lemma {:induction false} PatternInjective(x: I64, y: I64)
    requires Pattern(x) == Pattern(y)
    ensures x == y
  {
  }

  lemma {:induction false} KindNameInjective(j: ResearchKind, k: ResearchKind)
    requires KindName(j) == KindName(k)
    ensures j == k
  {
    hide Ascii;
    assert |KindName(j)| == |KindName(k)| && KindName(j)[0] == KindName(k)[0];
  }

  lemma {:induction false} MembershipDecodes(c: MembershipClaims, d: MembershipClaims)
    requires MembershipParts(c) == MembershipParts(d)
    ensures SameRecord(Membership(c), Membership(d))
  {
    var p, q := MembershipParts(c), MembershipParts(d);
    assert p[1] == q[1] && p[2] == q[2] && p[3] == q[3] && p[4] == q[4] && p[5] == q[5];
    assert p[6] == q[6] && p[7] == q[7] && p[8] == q[8] && p[9] == q[9];
    PatternInjective(c.issuedAt, d.issuedAt);
    PatternInjective(c.expiresAt, d.expiresAt);
    SortBytesEqualIff(c.roles, d.roles);
  }

  lemma {:induction false} CertificateDecodes(c: NodeCertificateClaims, d: NodeCertificateClaims)
    requires CertificateParts(c) == CertificateParts(d)
    ensures SameRecord(Certificate(c), Certificate(d))
  {
    var p, q := CertificateParts(c), CertificateParts(d);
    assert p[1] == q[1] && p[2] == q[2] && p[3] == q[3] && p[4] == q[4] && p[5] == q[5];
    assert p[6] == q[6] && p[7] == q[7] && p[8] == q[8] && p[9] == q[9];
    PatternInjective(c.issuedAt, d.issuedAt);
    PatternInjective(c.expiresAt, d.expiresAt);
    SortBytesEqualIff(c.allowedRoles, d.allowedRoles);
  }

  lemma {:induction false} SpellDecodes(c: SpellContract, d: SpellContract)
    requires SpellParts(c) == SpellParts(d)
    ensures c == d
  {
    var p, q := SpellParts(c), SpellParts(d);
    assert p[1] == q[1] && p[2] == q[2] && p[3] == q[3] && p[4] == q[4] && p[5] == q[5] && p[6] == q[6];
    assert p[7] == q[7] && p[8] == q[8] && p[9] == q[9] && p[10] == q[10] && p[11] == q[11];
    PatternInjective(c.issuedAt, d.issuedAt);
    PatternInjective(c.expiresAt, d.expiresAt);
  }

  lemma {:induction false} ResearchDecodes(c: ResearchRecord, d: ResearchRecord)
    requires ResearchParts(c) == ResearchParts(d)
    ensures c == d
  {
    var p, q := ResearchParts(c), ResearchParts(d);
    assert p[1] == q[1] && p[2] == q[2] && p[3] == q[3] && p[4] == q[4] && p[5] == q[5] && p[6] == q[6] && p[7] == q[7];
    KindNameInjective(c.kind, d.kind);
    PatternInjective(c.createdAt, d.createdAt);
  }

  function Tag(r: Record): Bytes {
    match r
    case Membership(_) => Ascii("acm.membership.v1")
    case Certificate(_) => Ascii("acm.node-certificate.v1")
    case Spell(_, _) => Ascii("acm.spell-contract.v1")
    case Research(_, _) => Ascii("acm.research-record.v1")
  }

  predicate OneKind(a: Record, b: Record) {
    && (a.Membership? <==> b.Membership?)
    && (a.Certificate? <==> b.Certificate?)
    && (a.Spell? <==> b.Spell?)
  }

  lemma {:induction false} TagFirst(r: Record)
    ensures |Parts(r)| > 0 && Parts(r)[0] == Text(Tag(r)) && Bounded(Parts(r)[0])
  {
    hide Ascii, SortBytes, KindName, Pattern;
  }

  lemma {:induction false} TagTellsKind(a: Record, b: Record)
    requires Tag(a) == Tag(b)
    ensures OneKind(a, b)
  {
    hide Ascii;
    assert |Tag(a)| == |Tag(b)|;
  }

  /** Records of different kinds never share their bytes. */
  lemma {:induction false} KindsSeparate(a: Record, b: Record)
    requires CanonicalBytes(a) == CanonicalBytes(b)
    ensures OneKind(a, b)
  {
    hide Parts, Encode, Tag;
    TagFirst(a);
    TagFirst(b);
    if Tag(a) != Tag(b) {
      TagsSeparate(Parts(a), Parts(b));
    }
    TagTellsKind(a, b);
  }

  lemma {:induction false} OneShape(a: Record, b: Record)
    requires OneKind(a, b)
    ensures SameShape(Parts(a), Parts(b))
  {
    hide Ascii, SortBytes, KindName, Pattern;
  }

  /**
    Canonical bytes decode uniquely: records of any two kinds have equal bytes exactly when they
    are the same record, up to the order of roles.
   */
  lemma {:induction false} CanonicalUnique(a: Record, b: Record)
    requires Short(a) && Short(b)
    ensures CanonicalBytes(a) == CanonicalBytes(b) <==> SameRecord(a, b)
  {
    hide Parts, Encode, SameRecord, Short;
    if CanonicalBytes(a) == CanonicalBytes(b) {
      KindsSeparate(a, b);
      OneShape(a, b);
      ShortIsBounded(a);
      ShortIsBounded(b);
      EncodeUnique(Parts(a), Parts(b));
      PartsDecode(a, b);
    }
    if SameRecord(a, b) {
      SameParts(a, b);
    }
  }

  lemma {:induction false} PartsDecode(a: Record, b: Record)
    requires Parts(a) == Parts(b) && OneKind(a, b)
    ensures SameRecord(a, b)
  {
    hide Ascii, SortBytes, KindName, Pattern;
    match a {
      case Membership(c) => MembershipDecodes(c, b.membership);
      case Certificate(c) => CertificateDecodes(c, b.certificate);
      case Spell(c, id) =>
        var p, q := Parts(a), Parts(b);
        assert SpellParts(c) == p[..12] == q[..12] == SpellParts(b.spell);
        assert p[12] == q[12];
        SpellDecodes(c, b.spell);
      case Research(c, id) =>
        var p, q := Parts(a), Parts(b);
        assert ResearchParts(c) == p[..8] == q[..8] == ResearchParts(b.research);
        assert p[8] == q[8];
        ResearchDecodes(c, b.research);
    }
  }

  lemma {:induction false} SameParts(a: Record, b: Record)
    requires SameRecord(a, b)
    ensures Parts(a) == Parts(b)
  {
    hide Ascii, SortBytes, KindName, Pattern;
    match a {
      case Membership(c) => SortBytesEqualIff(c.roles, b.membership.roles);
      case Certificate(c) => SortBytesEqualIff(c.allowedRoles, b.certificate.allowedRoles);
      case Spell(_, _) =>
      case Research(_, _) =>
    }
  }

  // ---------- the buffers the code fills ----------

  lemma {:induction false} EncodeSnoc(parts: seq<Part>, p: Part)
    ensures Encode(parts + [p]) == Encode(parts) + EncodePart(p)
    decreases |parts|
  {
    if |parts| == 0 {
      assert [] + [p] == [p] && [p][1..] == [];
    } else {
      assert (parts + [p])[1..] == parts[1..] + [p];
      EncodeSnoc(parts[1..], p);
    }
  }

  method AppendText(buffer: Bytes, value: Bytes, ghost done: seq<Part>) returns (out: Bytes, ghost now: seq<Part>)
    requires buffer == Encode(done)
    ensures now == done + [Text(value)] && out == Encode(now)
  {
    EncodeSnoc(done, Text(value));
    out, now := buffer + Field(value), done + [Text(value)];
  }

  method AppendFixed(buffer: Bytes, value: nat, width: nat, ghost done: seq<Part>) returns (out: Bytes, ghost now: seq<Part>)
    requires buffer == Encode(done)
    ensures now == done + [Fixed(value, width)] && out == Encode(now)
  {
    EncodeSnoc(done, Fixed(value, width));
    out, now := buffer + BigEndian(value, width), done + [Fixed(value, width)];
  }

  /** A count, then one field after another. */
  method AppendListing(buffer: Bytes, values: seq<Bytes>, ghost done: seq<Part>) returns (out: Bytes, ghost now: seq<Part>)
    requires buffer == Encode(done)
    ensures now == done + [Listing(values)] && out == Encode(now)
  {
    EncodeSnoc(done, Listing(values));
    now := done + [Listing(values)];
    out := buffer + BigEndian(|values| % LENGTH_LIMIT, 4);
    for i := 0 to |values|
      invariant out + Fields(values[i..]) == Encode(now)
    {
      assert values[i..][1..] == values[i + 1..];
      assert out + Fields(values[i..]) == out + Field(values[i]) + Fields(values[i + 1..]);
      out := out + Field(values[i]);
    }
    assert out + [] == out;
  }

  /** `MembershipClaims::canonical_bytes`: sort the roles, then append part after part. */
  method MembershipCanonicalBytes(c: MembershipClaims) returns (out: Bytes)
    ensures out == CanonicalBytes(Membership(c))
  {
    hide Encode, Ascii, SortBytes, Pattern;
    ghost var done: seq<Part> := [];
    out := EmptyBuffer();
    out, done := AppendText(out, Ascii("acm.membership.v1"), done);
    out, done := AppendFixed(out, c.credentialVersion, 2, done);
    out, done := AppendText(out, c.communityId, done);
    out, done := AppendText(out, c.memberPublicKey, done);
    out, done := AppendText(out, c.memberId, done);
    out, done := AppendListing(out, SortBytes(c.roles), done);
    out, done := AppendFixed(out, Pattern(c.issuedAt), 8, done);
    out, done := AppendFixed(out, Pattern(c.expiresAt), 8, done);
    out, done := AppendFixed(out, c.serial, 8, done);
    out, done := AppendText(out, c.issuerPublicKey, done);
    assert done == MembershipParts(c);
  }

  /** `NodeCertificateClaims::canonical_bytes`. */
  method CertificateCanonicalBytes(c: NodeCertificateClaims) returns (out: Bytes)
    ensures out == CanonicalBytes(Certificate(c))
  {
    hide Encode, Ascii, SortBytes, Pattern;
    ghost var done: seq<Part> := [];
    out := EmptyBuffer();
    out, done := AppendText(out, Ascii("acm.node-certificate.v1"), done);
    out, done := AppendFixed(out, c.certificateVersion, 2, done);
    out, done := AppendText(out, c.nodeId, done);
    out, done := AppendText(out, c.communityId, done);
    out, done := AppendText(out, c.ownerMemberId, done);
    assert done == CertificateParts(c)[..5];
    out, done := AppendText(out, c.endpointPublicKey, done);
    out, done := AppendListing(out, SortBytes(c.allowedRoles), done);
    out, done := AppendFixed(out, c.maxStorageBytes, 8, done);
    out, done := AppendFixed(out, Pattern(c.issuedAt), 8, done);
    out, done := AppendFixed(out, Pattern(c.expiresAt), 8, done);
    assert done == CertificateParts(c);
  }

  /** The identity bytes of a research record, then its identifier. */
  method ResearchCanonicalBytes(r: ResearchRecord, recordId: Bytes) returns (out: Bytes)
    ensures out == CanonicalBytes(Research(r, recordId))
  {
    hide Encode, Ascii, KindName, Pattern;
    ghost var done: seq<Part> := [];
    out := EmptyBuffer();
    out, done := AppendText(out, Ascii("acm.research-record.v1"), done);
    out, done := AppendFixed(out, r.recordVersion, 2, done);
    out, done := AppendText(out, r.projectId, done);
    out, done := AppendText(out, KindName(r.kind), done);
    assert done == ResearchParts(r)[..4];
    out, done := AppendListing(out, r.parentIds, done);
    out, done := AppendText(out, r.contentCid, done);
    out, done := AppendText(out, r.authorPublicKey, done);
    out, done := AppendFixed(out, Pattern(r.createdAt), 8, done);
    out, done := AppendText(out, recordId, done);
    assert done == ResearchParts(r) + [Text(recordId)];
  }

  method EmptyBuffer() returns (out: Bytes)
    ensures out == Encode([])
  {
    out := [];
  }

  /** `SpellContract::identity_bytes`, then the identifier. */
  method SpellCanonicalBytes(c: SpellContract, contractId: Bytes) returns (out: Bytes)
    ensures out == CanonicalBytes(Spell(c, contractId))
  {
    hide Encode, Ascii, Pattern, Flag;
    ghost var done: seq<Part> := [];
    out := EmptyBuffer();
    out, done := AppendText(out, Ascii("acm.spell-contract.v1"), done);
    out, done := AppendFixed(out, c.contractVersion, 2, done);
    out, done := AppendText(out, c.issuerPublicKey, done);
    out, done := AppendText(out, c.action, done);
    out, done := AppendListing(out, c.dataScopes, done);
    out, done := AppendListing(out, c.subjectIds, done);
    assert done == SpellParts(c)[..6];
    out, done := AppendFixed(out, c.maxAmountMinor, 8, done);
    out, done := AppendFixed(out, c.maxInvocations, 4, done);
    out, done := AppendFixed(out, Flag(c.humanApprovalRequired), 1, done);
    out, done := AppendFixed(out, Flag(c.reversible), 1, done);
    out, done := AppendFixed(out, Pattern(c.issuedAt), 8, done);
    out, done := AppendFixed(out, Pattern(c.expiresAt), 8, done);
    out, done := AppendText(out, contractId, done);
    assert done == SpellParts(c) + [Text(contractId)];
  }

  lemma {:induction false} ConcatSnoc(parts: seq<Bytes>, part: Bytes)
    ensures Concat(parts + [part]) == Concat(parts) + part
  {
    ConcatSplit(parts, [part]);
    assert [part][1..] == [];
    assert Concat([part]) == part + Concat([]);
  }

  /** Copies one part to where the offset stands. */
  method SetAt(output: array<int>, part: Bytes, offset: nat)
    requires offset + |part| <= output.Length
    modifies output
    ensures output[..offset + |part|] == old(output[..offset]) + part
  {
    for k := 0 to |part|
      invariant output[..offset + k] == old(output[..offset]) + part[..k]
    {
      output[offset + k] := part[k];
      assert part[..k + 1] == part[..k] + [part[k]];
    }
    assert part[..|part|] == part;
  }

  /** The Worker's `concat`: parts are copied into one array at a running offset. */
  method ConcatInto(parts: seq<Bytes>) returns (output: array<int>)
    ensures fresh(output) && output[..] == Concat(parts)
  {
    var total := 0;
    for i := 0 to |parts|
      invariant total == |Concat(parts[..i])|
    {
      ConcatSnoc(parts[..i], parts[i]);
      assert parts[..i + 1] == parts[..i] + [parts[i]];
      total := total + |parts[i]|;
    }
    assert parts[..|parts|] == parts;
    output := new int[total];
    var offset := 0;
    for i := 0 to |parts|
      invariant output.Length == total == |Concat(parts)|
      invariant offset == |Concat(parts[..i])| <= total
      invariant output[..offset] == Concat(parts[..i])
    {
      ConcatSnoc(parts[..i], parts[i]);
      assert parts[..i + 1] == parts[..i] + [parts[i]];
      ConcatPrefix(parts, i + 1);
      SetAt(output, parts[i], offset);
      offset := offset + |parts[i]|;
    }
    assert output[..offset] == output[..];
  }

  lemma {:induction false} ConcatPrefix(parts: seq<Bytes>, n: nat)
    requires n <= |parts|
    ensures |Concat(parts[..n])| <= |Concat(parts)|
  {
    ConcatSplit(parts[..n], parts[n..]);
    assert parts == parts[..n] + parts[n..];
  }

  function FieldList(values: seq<Bytes>): seq<Bytes> {
    if |values| == 0 then [] else [Field(values[0])] + FieldList(values[1..])
  }

  lemma {:induction false} FieldListConcat(values: seq<Bytes>)
    ensures Concat(FieldList(values)) == Fields(values)
  {
    if |values| > 0 {
      FieldListConcat(values[1..]);
      assert FieldList(values)[1..] == FieldList(values[1..]);
    }
  }

  /** How the Worker lays one part out as the byte arrays it hands to `concat`. */
  function WorkerPart(p: Part): seq<Bytes> {
    match p
    case Fixed(value, width) => [BigEndian(value, width)]
    case Text(bytes) => [Field(bytes)]
    case Listing(values) => [BigEndian(|values| % LENGTH_LIMIT, 4)] + FieldList(values)
  }

  function WorkerParts(parts: seq<Part>): seq<Bytes> {
    if |parts| == 0 then [] else WorkerPart(parts[0]) + WorkerParts(parts[1..])
  }

  /** Laying parts out and joining them gives what appending them one by one gives. */
  lemma {:induction false} WorkerAgrees(parts: seq<Part>)
    ensures Concat(WorkerParts(parts)) == Encode(parts)
    decreases |parts|
  {
    if |parts| > 0 {
      ConcatSplit(WorkerPart(parts[0]), WorkerParts(parts[1..]));
      WorkerAgrees(parts[1..]);
      WorkerPartAgrees(parts[0]);
    }
  }

  lemma {:induction false} WorkerPartAgrees(p: Part)
    ensures Concat(WorkerPart(p)) == EncodePart(p)
  {
    if p.Listing? {
      FieldListConcat(p.values);
      assert WorkerPart(p)[1..] == FieldList(p.values);
    } else {
      assert WorkerPart(p)[1..] == [];
      assert Concat(WorkerPart(p)) == WorkerPart(p)[0] + Concat([]);
    }
  }

  lemma {:induction false} WorkerPartsSplit(a: seq<Part>, b: seq<Part>)
    ensures WorkerParts(a + b) == WorkerParts(a) + WorkerParts(b)
  {
    hide WorkerPart;
    if |a| == 0 {
      assert a + b == b;
    } else {
      assert (a + b)[1..] == a[1..] + b;
      WorkerPartsSplit(a[1..], b);
    }
  }

  function EncodeEach(parts: seq<Part>): seq<Bytes> {
    seq(|parts|, i requires 0 <= i < |parts| => EncodePart(parts[i]))
  }

  /** Parts other than lists are laid out as one array each, in order. */
  lemma {:induction false} PlainParts(parts: seq<Part>)
    requires forall p :: p in parts ==> !p.Listing?
    ensures WorkerParts(parts) == EncodeEach(parts)
  {
    hide BigEndian, Field, Fields;
    if |parts| > 0 {
      PlainParts(parts[1..]);
      assert WorkerPart(parts[0]) == [EncodePart(parts[0])];
      assert EncodeEach(parts) == [EncodePart(parts[0])] + EncodeEach(parts[1..]);
    }
  }

  /** One list among plain parts. */
  lemma {:induction false} ListAmongPlain(front: seq<Part>, values: seq<Bytes>, back: seq<Part>)
    requires forall p :: p in front || p in back ==> !p.Listing?
    ensures WorkerParts(front + ([Listing(values)] + back)) ==
            EncodeEach(front) + ([BigEndian(|values| % LENGTH_LIMIT, 4)] + FieldList(values)) + EncodeEach(back)
  {
    hide BigEndian, FieldList, WorkerParts, EncodeEach;
    WorkerPartsSplit(front, [Listing(values)] + back);
    WorkerPartsSplit([Listing(values)], back);
    PlainParts(front);
    PlainParts(back);
    OneListing(values);
  }

  lemma {:induction false} OneListing(values: seq<Bytes>)
    ensures WorkerParts([Listing(values)]) == [BigEndian(|values| % LENGTH_LIMIT, 4)] + FieldList(values)
  {
    assert [Listing(values)][1..] == [];
  }

  /** The arrays the Worker joins for a membership; it writes version 1 itself. */
  function WorkerMembershipArrays(c: MembershipClaims): seq<Bytes> {
    var roles := SortBytes(c.roles);
    [ Field(Ascii("acm.membership.v1")),
      BigEndian(1, 2),
      Field(c.communityId),
      Field(c.memberPublicKey),
      Field(c.memberId),
      BigEndian(|roles| % LENGTH_LIMIT, 4) ]
    + FieldList(roles) +
    [ BigEndian(Pattern(c.issuedAt), 8),
      BigEndian(Pattern(c.expiresAt), 8),
      BigEndian(c.serial, 8),
      Field(c.issuerPublicKey) ]
  }

  /** What the Worker signs of a membership. */
  function WorkerMembership(c: MembershipClaims): MembershipClaims {
    c.(credentialVersion := 1)
  }

  /** Joined, the Worker's membership arrays are the core's bytes. */
  lemma {:induction false} WorkerMembershipAgrees(c: MembershipClaims)
    ensures Concat(WorkerMembershipArrays(c)) == CanonicalBytes(Membership(WorkerMembership(c)))
  {
    hide BigEndian, Field, FieldList, Ascii, SortBytes, Pattern, Encode, WorkerParts, Concat;
    var parts := MembershipParts(WorkerMembership(c));
    var roles := SortBytes(c.roles);
    assert parts == parts[..5] + ([Listing(roles)] + parts[6..]);
    ListAmongPlain(parts[..5], roles, parts[6..]);
    assert EncodeEach(parts[..5]) ==
           [Field(Ascii("acm.membership.v1")), BigEndian(1, 2), Field(c.communityId), Field(c.memberPublicKey), Field(c.memberId)];
    assert EncodeEach(parts[6..]) ==
           [BigEndian(Pattern(c.issuedAt), 8), BigEndian(Pattern(c.expiresAt), 8), BigEndian(c.serial, 8), Field(c.issuerPublicKey)];
    assert WorkerMembershipArrays(c) == WorkerParts(parts);
    WorkerAgrees(parts);
  }

  /** `membershipCanonicalBytes`. */
  method WorkerMembershipBytes(c: MembershipClaims) returns (output: array<int>)
    ensures fresh(output) && output[..] == CanonicalBytes(Membership(WorkerMembership(c)))
  {
    WorkerMembershipAgrees(c);
    output := ConcatInto(WorkerMembershipArrays(c));
  }

  /** The Worker's membership bytes are those of the given claims exactly for version 1. */
  lemma {:induction false} WorkerMembershipAgreesIff(c: MembershipClaims)
    requires Short(Membership(c))
    ensures CanonicalBytes(Membership(WorkerMembership(c))) == CanonicalBytes(Membership(c)) <==>
              c.credentialVersion == 1
  {
    hide CanonicalBytes, Ascii;
    CanonicalUnique(Membership(WorkerMembership(c)), Membership(c));
  }

  /** The arrays the Worker joins for a certificate; it writes version 1 and the one role itself. */
  function WorkerCertificateArrays(c: NodeCertificateClaims): seq<Bytes> {
    [ Field(Ascii("acm.node-certificate.v1")),
      BigEndian(1, 2),
      Field(c.nodeId),
      Field(c.communityId),
      Field(c.ownerMemberId),
      Field(c.endpointPublicKey),
      BigEndian(1, 4),
      Field(Ascii("node")),
      BigEndian(c.maxStorageBytes, 8),
      BigEndian(Pattern(c.issuedAt), 8),
      BigEndian(Pattern(c.expiresAt), 8) ]
  }

  /** What the Worker signs of a certificate. */
  function WorkerCertificate(c: NodeCertificateClaims): NodeCertificateClaims {
    c.(certificateVersion := 1, allowedRoles := [Ascii("node")])
  }

  /** Joined, the Worker's certificate arrays are the core's bytes. */
  lemma {:induction false} WorkerCertificateAgrees(c: NodeCertificateClaims)
    ensures Concat(WorkerCertificateArrays(c)) == CanonicalBytes(Certificate(WorkerCertificate(c)))
  {
    hide BigEndian, Field, Ascii, SortBytes, Pattern, Encode, WorkerParts, Concat;
    var parts := CertificateParts(WorkerCertificate(c));
    var roles := [Ascii("node")];
    SortOne(Ascii("node"));
    assert parts == parts[..6] + ([Listing(roles)] + parts[7..]);
    ListAmongPlain(parts[..6], roles, parts[7..]);
    assert roles[1..] == [];
    assert FieldList(roles) == [Field(roles[0])];
    assert WorkerCertificateArrays(c) == WorkerParts(parts);
    WorkerAgrees(parts);
  }

  lemma {:induction false} SortOne(value: Bytes)
    ensures SortBytes([value]) == [value]
  {
    SortSpec(Itself, [value]);
    SortedUnique(SortBytes([value]), [value]);
  }

  /** `nodeCertificateCanonicalBytes`. */
  method WorkerCertificateBytes(c: NodeCertificateClaims) returns (output: array<int>)
    ensures fresh(output) && output[..] == CanonicalBytes(Certificate(WorkerCertificate(c)))
  {
    WorkerCertificateAgrees(c);
    output := ConcatInto(WorkerCertificateArrays(c));
  }

  /** The Worker's certificate bytes are the core's exactly for version 1 and the single role `node`. */
  lemma {:induction false} WorkerCertificateAgreesIff(c: NodeCertificateClaims)
    requires Short(Certificate(c)) && Short(Certificate(WorkerCertificate(c)))
    ensures CanonicalBytes(Certificate(WorkerCertificate(c))) == CanonicalBytes(Certificate(c)) <==>
              c.certificateVersion == 1 && multiset(c.allowedRoles) == multiset{Ascii("node")}
  {
    hide CanonicalBytes, Short, Ascii;
    CanonicalUnique(Certificate(WorkerCertificate(c)), Certificate(c));
    assert multiset([Ascii("node")]) == multiset{Ascii("node")};
  }
}
