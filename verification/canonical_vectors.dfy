/** The byte layout of the signed records, the two encodings the repository's own fixture fixes, and how texts print. */
module CanonicalVectors {
  import opened ByteStrings
  import opened Order
  import opened Canonical
  import opened Text

  const FIXTURE_MEMBER: string := "mem_e4d60b4531b114100aab5f9907d1718c613e603482a15bee8ccda17e5c9bb3ea"

  /** A CID's text is 64 hexadecimal digits, in either case. */
  lemma {:induction false} CidTextIff(c: Bytes)
    ensures IsCidText(c) <==> |c| == 64 && forall i :: 0 <= i < |c| ==> c[i] in Ascii("0123456789abcdefABCDEF")
  {
    hide Ascii;
    forall i | 0 <= i < |c| ensures c[i] in Ascii("0123456789abcdefABCDEF") <==> 48 <= c[i] <= 57 || 97 <= c[i] <= 102 || 65 <= c[i] <= 70 {
      HexDigit(c[i]);
    }
  }

  lemma {:induction false} HexDigit(b: Byte)
    ensures b in Ascii("0123456789abcdefABCDEF") <==> 48 <= b <= 57 || 97 <= b <= 102 || 65 <= b <= 70
  {
    var digits := Ascii("0123456789abcdefABCDEF");
    assert 48 <= b <= 57 ==> digits[b - 48] == b;
    assert 97 <= b <= 102 ==> digits[b - 87] == b;
    assert 65 <= b <= 70 ==> digits[b - 49] == b;
  }

  /** Digests print as two lower-case digits a byte, numbers in decimal, and fields are joined by a bar. */
  lemma {:induction false} Printing(b: Byte, first: Bytes, second: Bytes)
    ensures Hex([b]) == [Ascii("0123456789abcdef")[b / 16], Ascii("0123456789abcdef")[b % 16]]
    ensures Decimal(105) == Ascii("105") && Decimal(-7) == Ascii("-7")
    ensures Joined([first, second]) == first + Ascii("|") + second
  {
    var digits := Ascii("0123456789abcdef");
    assert forall n :: 0 <= n < 16 ==> Text.HexDigit(n) == digits[n];
    assert [b][1..] == [];
    assert Hex([b]) == [Text.HexDigit(b / 16), Text.HexDigit(b % 16)] + Hex([]);
    assert Natural(105) == Natural(10) + [ZERO + 5] && Natural(10) == Natural(1) + [ZERO];
    assert Ascii("105") == [49, 48, 53] && Ascii("-7") == [45, 55] && Ascii("|") == [124];
    assert [first, second][1..] == [second];
  }

  lemma {:induction false} EncodesEach(parts: seq<Part>, pieces: seq<Bytes>)
    requires |pieces| == |parts| && forall i :: 0 <= i < |parts| ==> EncodePart(parts[i]) == pieces[i]
    ensures Encode(parts) == Concat(pieces)
    decreases |parts|
  {
    hide EncodePart;
    if |parts| > 0 {
      EncodesEach(parts[1..], pieces[1..]);
    }
  }

  lemma {:induction false} SmallNumbers(n: nat)
    requires n < 256
    ensures BigEndian(n, 1) == [n] && BigEndian(n, 2) == [0, n] && BigEndian(n, 4) == [0, 0, 0, n]
    ensures BigEndian(n, 8) == [0, 0, 0, 0, 0, 0, 0, n]
  {
    assert BigEndian(n, 1) == [n];
    assert forall k: nat :: BigEndian(0, k + 1) == BigEndian(0, k) + [0];
    assert BigEndian(0, 1) == [0] && BigEndian(0, 2) == [0, 0] && BigEndian(0, 3) == [0, 0, 0];
    assert BigEndian(0, 4) == [0, 0, 0, 0] && BigEndian(0, 5) == [0, 0, 0, 0, 0];
    assert BigEndian(0, 6) == [0, 0, 0, 0, 0, 0] && BigEndian(0, 7) == [0, 0, 0, 0, 0, 0, 0];
  }

  lemma {:induction false} SmallText(text: Bytes)
    requires |text| < 256
    ensures EncodePart(Text(text)) == Field(text) == [0, 0, 0, |text|] + text
  {
    hide BigEndian;
    SmallNumbers(|text|);
  }

  lemma {:induction false} TwoTexts(a: Bytes, b: Bytes)
    requires |a| < 256 && |b| < 256
    ensures EncodePart(Listing([a, b])) == [0, 0, 0, 2] + [0, 0, 0, |a|] + a + [0, 0, 0, |b|] + b
  {
    hide BigEndian, Field;
    SmallNumbers(2);
    SmallText(a);
    SmallText(b);
    assert [a, b][1..] == [b];
    OneField(b);
    assert Fields([a, b]) == Field(a) + Field(b);
  }

  lemma {:induction false} OneField(a: Bytes)
    ensures Fields([a]) == Field(a)
  {
    hide Field;
    assert [a][1..] == [];
    assert Field(a) + [] == Field(a);
  }

  lemma {:induction false} OneText(a: Bytes)
    requires |a| < 256
    ensures EncodePart(Listing([a])) == [0, 0, 0, 1] + [0, 0, 0, |a|] + a
  {
    hide BigEndian, Field, Fields;
    SmallNumbers(1);
    SmallText(a);
    OneField(a);
  }

  lemma {:induction false} SortedRoles()
    ensures SortBytes([Ascii("member"), Ascii("admin")]) == [Ascii("admin"), Ascii("member")]
    ensures SortBytes([Ascii("node")]) == [Ascii("node")]
  {
    var m, a, n := Ascii("member"), Ascii("admin"), Ascii("node");
    assert m[0] == 109 && a[0] == 97;
    SortOne(m);
    SortOne(n);
    assert [m, a][..1] == [m];
    assert [m][..0] == [];
    assert Insert(Itself, a, [m]) == Insert(Itself, a, []) + [m];
  }

  lemma {:induction false} SortOne(x: Bytes)
    ensures Sort(Itself, [x]) == [x]
  {
    assert [x][..0] == [];
  }

  /** The membership of the repository's fixture encodes to the fixture's bytes. */
  lemma {:induction false} MembershipFixture()
    ensures CanonicalBytes(Membership(MembershipClaims(
              1, Ascii("community-fixture"), seq(32, _ => 2), Ascii(FIXTURE_MEMBER),
              [Ascii("member"), Ascii("admin")], 100, 200, 7, seq(32, _ => 1)))) ==
            Concat([
              [0, 0, 0, 17] + Ascii("acm.membership.v1"),
              [0, 1],
              [0, 0, 0, 17] + Ascii("community-fixture"),
              [0, 0, 0, 32] + seq(32, _ => 2),
              [0, 0, 0, 68] + Ascii(FIXTURE_MEMBER),
              [0, 0, 0, 2] + [0, 0, 0, 5] + Ascii("admin") + [0, 0, 0, 6] + Ascii("member"),
              [0, 0, 0, 0, 0, 0, 0, 100],
              [0, 0, 0, 0, 0, 0, 0, 200],
              [0, 0, 0, 0, 0, 0, 0, 7],
              [0, 0, 0, 32] + seq(32, _ => 1)])
  {
    hide EncodePart, SortBytes, Concat, Encode;
    var two: Bytes, one: Bytes := seq(32, _ => 2), seq(32, _ => 1);
    var c := MembershipClaims(
      1, Ascii("community-fixture"), two, Ascii(FIXTURE_MEMBER), [Ascii("member"), Ascii("admin")], 100, 200, 7, one);
    SortedRoles();
    SmallText(Ascii("acm.membership.v1"));
    SmallText(c.communityId);
    SmallText(two);
    SmallText(c.memberId);
    TwoTexts(Ascii("admin"), Ascii("member"));
    SmallText(one);
    FixedNumbers();
    EncodesEach(MembershipParts(c), [
      [0, 0, 0, 17] + Ascii("acm.membership.v1"),
      [0, 1],
      [0, 0, 0, 17] + Ascii("community-fixture"),
      [0, 0, 0, 32] + two,
      [0, 0, 0, 68] + Ascii(FIXTURE_MEMBER),
      [0, 0, 0, 2] + [0, 0, 0, 5] + Ascii("admin") + [0, 0, 0, 6] + Ascii("member"),
      [0, 0, 0, 0, 0, 0, 0, 100],
      [0, 0, 0, 0, 0, 0, 0, 200],
      [0, 0, 0, 0, 0, 0, 0, 7],
      [0, 0, 0, 32] + one]);
  }

  lemma {:induction false} FixedNumbers()
    ensures EncodePart(Fixed(1, 2)) == [0, 1] && EncodePart(Fixed(4096, 8)) == [0, 0, 0, 0, 0, 0, 16, 0]
    ensures forall n: nat :: n < 256 ==> EncodePart(Fixed(n, 8)) == [0, 0, 0, 0, 0, 0, 0, n]
  {
    forall n: nat | n < 256 ensures EncodePart(Fixed(n, 8)) == [0, 0, 0, 0, 0, 0, 0, n] {
      SmallNumbers(n);
    }
    SmallNumbers(1);
    SmallNumbers(16);
    assert BigEndian(4096, 8) == BigEndian(16, 7) + [0];
    assert BigEndian(16, 8) == BigEndian(0, 7) + [16];
    assert BigEndian(16, 7) == BigEndian(0, 6) + [16];
    SmallNumbers(0);
    assert BigEndian(0, 7) == BigEndian(0, 6) + [0];
  }

  /** The certificate of the repository's fixture encodes to the fixture's bytes. */
  lemma {:induction false} CertificateFixture()
    ensures CanonicalBytes(Certificate(NodeCertificateClaims(
              1, Ascii("node-fixture"), Ascii("community-fixture"), Ascii(FIXTURE_MEMBER), Ascii("endpoint-fixture"),
              [Ascii("node")], 4096, 100, 200))) ==
            Concat([
              [0, 0, 0, 23] + Ascii("acm.node-certificate.v1"),
              [0, 1],
              [0, 0, 0, 12] + Ascii("node-fixture"),
              [0, 0, 0, 17] + Ascii("community-fixture"),
              [0, 0, 0, 68] + Ascii(FIXTURE_MEMBER),
              [0, 0, 0, 16] + Ascii("endpoint-fixture"),
              [0, 0, 0, 1] + [0, 0, 0, 4] + Ascii("node"),
              [0, 0, 0, 0, 0, 0, 16, 0],
              [0, 0, 0, 0, 0, 0, 0, 100],
              [0, 0, 0, 0, 0, 0, 0, 200]])
  {
    hide EncodePart, SortBytes, Concat, Encode;
    var c := NodeCertificateClaims(
      1, Ascii("node-fixture"), Ascii("community-fixture"), Ascii(FIXTURE_MEMBER), Ascii("endpoint-fixture"),
      [Ascii("node")], 4096, 100, 200);
    SortedRoles();
    SmallText(Ascii("acm.node-certificate.v1"));
    SmallText(c.nodeId);
    SmallText(c.communityId);
    SmallText(c.ownerMemberId);
    SmallText(c.endpointPublicKey);
    OneText(Ascii("node"));
    FixedNumbers();
    EncodesEach(CertificateParts(c), [
      [0, 0, 0, 23] + Ascii("acm.node-certificate.v1"),
      [0, 1],
      [0, 0, 0, 12] + Ascii("node-fixture"),
      [0, 0, 0, 17] + Ascii("community-fixture"),
      [0, 0, 0, 68] + Ascii(FIXTURE_MEMBER),
      [0, 0, 0, 16] + Ascii("endpoint-fixture"),
      [0, 0, 0, 1] + [0, 0, 0, 4] + Ascii("node"),
      [0, 0, 0, 0, 0, 0, 16, 0],
      [0, 0, 0, 0, 0, 0, 0, 100],
      [0, 0, 0, 0, 0, 0, 0, 200]]);
  }

  /** A spell contract's bytes: every field in its place, texts and lists counted in four bytes. */
  lemma {:induction false} SpellLayout(c: SpellContract, contractId: Bytes)
    ensures CanonicalBytes(Spell(c, contractId)) ==
            Concat([
              Field(Ascii("acm.spell-contract.v1")),
              BigEndian(c.contractVersion, 2),
              Field(c.issuerPublicKey),
              Field(c.action),
              BigEndian(|c.dataScopes| % 0x1_0000_0000, 4) + Fields(c.dataScopes),
              BigEndian(|c.subjectIds| % 0x1_0000_0000, 4) + Fields(c.subjectIds),
              BigEndian(c.maxAmountMinor, 8),
              BigEndian(c.maxInvocations, 4),
              [if c.humanApprovalRequired then 1 else 0],
              [if c.reversible then 1 else 0],
              BigEndian(if c.issuedAt < 0 then c.issuedAt + 0x1_0000_0000_0000_0000 else c.issuedAt, 8),
              BigEndian(if c.expiresAt < 0 then c.expiresAt + 0x1_0000_0000_0000_0000 else c.expiresAt, 8),
              Field(contractId)])
  {
    hide Field, Fields, Ascii, BigEndian, Encode, Concat;
    SmallNumbers(0);
    SmallNumbers(1);
    EncodesEach(SpellParts(c) + [Text(contractId)], [
      Field(Ascii("acm.spell-contract.v1")),
      BigEndian(c.contractVersion, 2),
      Field(c.issuerPublicKey),
      Field(c.action),
      BigEndian(|c.dataScopes| % 0x1_0000_0000, 4) + Fields(c.dataScopes),
      BigEndian(|c.subjectIds| % 0x1_0000_0000, 4) + Fields(c.subjectIds),
      BigEndian(c.maxAmountMinor, 8),
      BigEndian(c.maxInvocations, 4),
      [if c.humanApprovalRequired then 1 else 0],
      [if c.reversible then 1 else 0],
      BigEndian(Pattern(c.issuedAt), 8),
      BigEndian(Pattern(c.expiresAt), 8),
      Field(contractId)]);
  }

  /** A research record's bytes. */
  lemma {:induction false} ResearchLayout(r: ResearchRecord, recordId: Bytes)
    ensures CanonicalBytes(Research(r, recordId)) ==
            Concat([
              Field(Ascii("acm.research-record.v1")),
              BigEndian(r.recordVersion, 2),
              Field(r.projectId),
              Field(Ascii(match r.kind
                          case Hypothesis => "Hypothesis" case Dataset => "Dataset" case Experiment => "Experiment"
                          case Analysis => "Analysis" case Failure => "Failure" case Decision => "Decision"
                          case Claim => "Claim" case Reproduction => "Reproduction" case Correction => "Correction"
                          case Retraction => "Retraction")),
              BigEndian(|r.parentIds| % 0x1_0000_0000, 4) + Fields(r.parentIds),
              Field(r.contentCid),
              Field(r.authorPublicKey),
              BigEndian(if r.createdAt < 0 then r.createdAt + 0x1_0000_0000_0000_0000 else r.createdAt, 8),
              Field(recordId)])
  {
    hide Field, Fields, Ascii, BigEndian, Encode, Concat;
    EncodesEach(ResearchParts(r) + [Text(recordId)], [
      Field(Ascii("acm.research-record.v1")),
      BigEndian(r.recordVersion, 2),
      Field(r.projectId),
      Field(KindName(r.kind)),
      BigEndian(|r.parentIds| % 0x1_0000_0000, 4) + Fields(r.parentIds),
      Field(r.contentCid),
      Field(r.authorPublicKey),
      BigEndian(Pattern(r.createdAt), 8),
      Field(recordId)]);
  }
}
