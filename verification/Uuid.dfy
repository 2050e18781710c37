/** uuid.c: version 4 identifiers as text. */
module Uuid {
  import opened Bytes
  import opened Packets
  import Hex

  const DASH: byte := 0x2D

  /** The 16 random bytes with version and variant set. */
  function Marked(r: seq<byte>): (u: seq<byte>)
    requires |r| == 16
    ensures |u| == 16
  {
    r[6 := r[6] % 0x10 + 0x40][8 := r[8] % 0x40 + 0x80]
  }

  function Text(r: seq<byte>): (s: seq<byte>)
    requires |r| == 16
    ensures |s| == UUID_LEN
  {
    var u := Marked(r);
    Hex.Text(u[0..4], false) + [DASH] + Hex.Text(u[4..6], false) + [DASH] + Hex.Text(u[6..8], false) + [DASH] +
    Hex.Text(u[8..10], false) + [DASH] + Hex.Text(u[10..16], false) + [0]
  }

  /** uuid_gen, given what rand_fill put into its buffer. */
  method Gen(out: array<byte>, uuid: array<byte>)
    requires out.Length >= UUID_LEN && uuid.Length == 16 && out != uuid
    modifies out, uuid
    ensures out[..UUID_LEN] == Text(old(uuid[..]))
  {
    ghost var r := uuid[..];
    uuid[6] := uuid[6] % 0x10 + 0x40;
    uuid[8] := uuid[8] % 0x40 + 0x80;
    ghost var u := uuid[..];
    assert u == Marked(r);
    out[8], out[13], out[18], out[23] := DASH, DASH, DASH, DASH;
    out[36] := 0;
    Hex.FromBin(out, 0, uuid[0..4], false);
    ghost var a := out[0..8];
    Hex.FromBin(out, 9, uuid[4..6], false);
    ghost var b := out[9..13];
    Hex.FromBin(out, 14, uuid[6..8], false);
    ghost var c := out[14..18];
    Hex.FromBin(out, 19, uuid[8..10], false);
    ghost var d := out[19..23];
    Hex.FromBin(out, 24, uuid[10..16], false);
    assert out[0..8] == a && out[9..13] == b && out[14..18] == c && out[19..23] == d;
    assert out[8] == out[13] == out[18] == out[23] == DASH && out[36] == 0;
    Groups(out[..]);
    assert out[..UUID_LEN] == out[..][..UUID_LEN];
  }

  lemma Groups(s: seq<byte>)
    requires |s| >= UUID_LEN
    ensures s[..UUID_LEN] == s[0..8] + [s[8]] + s[9..13] + [s[13]] + s[14..18] + [s[18]] + s[19..23] + [s[23]] +
            s[24..36] + [s[36]]
  {}

  lemma HexIsPrintable(b: seq<byte>)
    ensures forall i :: 0 <= i < |Hex.Text(b, false)| ==> 32 <= Hex.Text(b, false)[i] <= 126
  {}

  /** Every identifier the hub gives a connection passes its own validation. */
  lemma TextIsValidId(r: seq<byte>)
    requires |r| == 16
    ensures ValidId(Text(r))
  {
    var s, u := Text(r), Marked(r);
    HexIsPrintable(u[0..4]);
    HexIsPrintable(u[4..6]);
    HexIsPrintable(u[6..8]);
    HexIsPrintable(u[8..10]);
    HexIsPrintable(u[10..16]);
    assert s[36] == 0;
    assert forall i :: 0 <= i < 36 ==> 32 <= s[i] <= 126;
  }

  /** The other 122 bits survive. */
  lemma MarkedKeeps(r: seq<byte>)
    requires |r| == 16
    ensures forall i :: 0 <= i < 16 && i != 6 && i != 8 ==> Marked(r)[i] == r[i]
    ensures Marked(r)[6] == 0x40 + r[6] % 0x10 && Marked(r)[8] == 0x80 + r[8] % 0x40
  {}

  /** The text spells the bytes, but for the six fixed bits, in groups of 8, 4, 4, 4 and 12 lower-case digits. */
  lemma TextSpells(r: seq<byte>)
    requires |r| == 16
    ensures var s := Text(r);
            && s[8] == s[13] == s[18] == s[23] == 0x2D && s[36] == 0
            && var digits := s[0..8] + s[9..13] + s[14..18] + s[19..23] + s[24..36];
               && (forall i :: 0 <= i < |digits| ==> 0x30 <= digits[i] <= 0x39 || 0x61 <= digits[i] <= 0x66)
               && Hex.IsHex(digits) && Hex.Bin(digits) == r[6 := 0x40 + r[6] % 0x10][8 := 0x80 + r[8] % 0x40]
  {
    var s, u := Text(r), Marked(r);
    Dashes(r);
    Parts(r);
    var digits := s[0..8] + s[9..13] + s[14..18] + s[19..23] + s[24..36];
    OneText(u);
    LowerText(u);
    Hex.TextRoundTrip(u, false);
    assert digits == Hex.Text(u, false);
  }

  lemma Dashes(r: seq<byte>)
    requires |r| == 16
    ensures var s := Text(r); s[8] == s[13] == s[18] == s[23] == 0x2D && s[36] == 0
  {
    hide Hex.Text, Marked;
  }

  lemma LowerText(b: seq<byte>)
    ensures var s := Hex.Text(b, false); forall i :: 0 <= i < |s| ==> 0x30 <= s[i] <= 0x39 || 0x61 <= s[i] <= 0x66
  {}

  lemma OneText(u: seq<byte>)
    requires |u| == 16
    ensures Hex.Text(u, false) == Hex.Text(u[0..4], false) + Hex.Text(u[4..6], false) + Hex.Text(u[6..8], false) +
                                  Hex.Text(u[8..10], false) + Hex.Text(u[10..16], false)
  {
    TextAppend(u[0..4], u[4..6]);
    TextAppend(u[0..6], u[6..8]);
    TextAppend(u[0..8], u[8..10]);
    TextAppend(u[0..10], u[10..16]);
    assert u[0..4] + u[4..6] == u[0..6] && u[0..6] + u[6..8] == u[0..8] && u[0..8] + u[8..10] == u[0..10];
    assert u[0..10] + u[10..16] == u;
  }

  lemma TextAppend(a: seq<byte>, b: seq<byte>)
    ensures Hex.Text(a + b, false) == Hex.Text(a, false) + Hex.Text(b, false)
  {
    var s := Hex.Text(a + b, false);
    forall j | 0 <= j < |s| ensures s[j] == (Hex.Text(a, false) + Hex.Text(b, false))[j] {
      assert s[j] == Hex.DigitAt(a + b, false, j);
    }
  }

  /** Two identifiers are the same text exactly when the random bytes agree outside the six fixed bits. */
  lemma SameTextIff(r: seq<byte>, q: seq<byte>)
    requires |r| == 16 && |q| == 16
    ensures Text(r) == Text(q) <==>
            (forall i :: 0 <= i < 16 && i != 6 && i != 8 ==> r[i] == q[i]) &&
            r[6] % 0x10 == q[6] % 0x10 && r[8] % 0x40 == q[8] % 0x40
  {
    MarkedKeeps(r);
    MarkedKeeps(q);
    hide Text, Hex.Text, Marked;
    if Text(r) == Text(q) {
      SameMarked(r, q);
    }
    TextOfMarked(r, q);
  }

  lemma SameMarked(r: seq<byte>, q: seq<byte>)
    requires |r| == 16 && |q| == 16 && Text(r) == Text(q)
    ensures Marked(r) == Marked(q)
  {
    TextSpells(r);
    TextSpells(q);
    hide Text, Hex.Bin;
  }

  lemma TextOfMarked(r: seq<byte>, q: seq<byte>)
    requires |r| == 16 && |q| == 16
    ensures Marked(r) == Marked(q) ==> Text(r) == Text(q)
  {}

  lemma Parts(r: seq<byte>)
    requires |r| == 16
    ensures var s, u := Text(r), Marked(r);
            s[0..8] == Hex.Text(u[0..4], false) && s[9..13] == Hex.Text(u[4..6], false) &&
            s[14..18] == Hex.Text(u[6..8], false) && s[19..23] == Hex.Text(u[8..10], false) &&
            s[24..36] == Hex.Text(u[10..16], false)
  {
    hide Hex.Text, Marked;
  }

  /** The text says version 4, variant 1, as RFC 4122 section 4.1 lays it out. */
  lemma VersionAndVariant(r: seq<byte>)
    requires |r| == 16
    ensures Text(r)[14] == 0x34
    ensures Text(r)[19] in {0x38, 0x39, 0x61, 0x62}
  {
    var u := Marked(r);
    assert Text(r)[14] == Hex.Text(u[6..8], false)[0] == Hex.Digit(u[6] / 16, false);
    assert Text(r)[19] == Hex.Text(u[8..10], false)[0] == Hex.Digit(u[8] / 16, false);
  }
}
