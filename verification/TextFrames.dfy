/** What the two text formats, airspy_adsb and raw, have in common. */
module TextFrames {
  import opened Bytes
  import opened Packets
  import Hex
  import opened Buffer

  /** Index of the first semicolon of a frame that carries `t`: a star and the payload text come before it. */
  function Head(t: PacketType): nat { 1 + 2 * Len(t) }

  /** A line of text ends at index `at`, with LF or with CR LF. */
  predicate LineEndAt(s: seq<byte>, at: nat) {
    (|s| >= at + 1 && s[at] == LF) || (|s| >= at + 2 && s[at] == CR && s[at + 1] == LF)
  }

  /** Index just past that line ending. */
  function PastLineEnd(s: seq<byte>, at: nat): (n: nat)
    requires LineEndAt(s, at)
    ensures at < n <= at + 2 && n <= |s|
  {
    if s[at] == CR then at + 2 else at + 1
  }

  /** hex_to_bin of the payload text of a `*` frame. */
  method ReadPayload(buf: Buf, out: array<byte>, n: nat) returns (ok: bool)
    requires buf.Valid() && buf.length >= 1 + 2 * n && out.Length >= n && buf.data != out
    modifies out
    ensures buf.Window() == old(buf.Window())
    ensures ok == Hex.IsHex(buf.Window()[1..1 + 2 * n])
    ensures ok ==> out[..n] == Hex.Bin(buf.Window()[1..1 + 2 * n])
  {
    var text := buf.Slice(1, 1 + 2 * n);
    assert text[..2 * n] == text;
    ok := Hex.ToBin(out, text, n);
  }

  /** No payload text runs over a semicolon, so a frame fits only one payload length. */
  lemma SemicolonEndsHex(s: seq<byte>, a: nat, b: nat)
    requires 1 <= a < b <= |s| && s[a] == SEMI
    ensures !Hex.IsHex(s[1..b])
  {
    assert s[1..b][a - 1] == SEMI;
  }
}
