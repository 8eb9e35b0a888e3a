/** The three-bytes-per-pixel R, G, B layout that the P6 codec of
    src/ppm_image.cpp and the scanlines of src/jpeg_image.cpp share: pixel i
    at bytes 3i, 3i+1, 3i+2, alpha not stored. */
module RgbRows {
  import opened Seqs
  import opened Colors

  /** Byte j of the packed form: channel j % 3 (r, g, b) of pixel j / 3. */
  function PackedByte(px: seq<Color>, j: nat): Byte
    requires j < 3 * |px|
  {
    var c := px[j / 3];
    if j % 3 == 0 then c.r else if j % 3 == 1 then c.g else c.b
  }

  /** The pixels packed as R, G, B triples. */
  function PackRgb(px: seq<Color>): (bytes: seq<Byte>)
    ensures |bytes| == 3 * |px|
  {
    seq(3 * |px|, j requires 0 <= j < 3 * |px| => PackedByte(px, j))
  }

  /** Pixel i occupies bytes 3i, 3i+1, 3i+2 as R, G, B. */
  lemma PackRgbAt(px: seq<Color>, i: int)
    requires 0 <= i < |px|
    ensures PackRgb(px)[3 * i..3 * i + 3] == [px[i].r, px[i].g, px[i].b]
  {
    assert (3 * i) / 3 == i && (3 * i) % 3 == 0;
    assert (3 * i + 1) / 3 == i && (3 * i + 1) % 3 == 1;
    assert (3 * i + 2) / 3 == i && (3 * i + 2) % 3 == 2;
  }

  /** Packing a run of pixels packs its parts one after the other. */
  lemma PackRgbAppend(a: seq<Color>, b: seq<Color>)
    ensures PackRgb(a + b) == PackRgb(a) + PackRgb(b)
  {
    var whole, parts := PackRgb(a + b), PackRgb(a) + PackRgb(b);
    forall j | 0 <= j < |whole|
      ensures whole[j] == parts[j]
    {
      if j >= 3 * |a| {
        var k := j - 3 * |a|;
        assert j / 3 == |a| + k / 3 && j % 3 == k % 3;
      }
    }
  }

  /** Packing the first k + n pixels packs the first k, then the next n. */
  lemma PackPrefix(px: seq<Color>, k: nat, n: nat)
    requires k + n <= |px|
    ensures PackRgb(px[..k]) + PackRgb(px[k..k + n]) == PackRgb(px[..k + n])
  {
    PackRgbAppend(px[..k], px[k..k + n]);
    assert px[..k] + px[k..k + n] == px[..k + n];
  }

  /** The unpack loop: r, g, b of pixel i come from bytes 3i, 3i+1, 3i+2;
      alpha keeps the value the pixel had. */
  function UnpackRgb(bytes: seq<Byte>, px: seq<Color>): (out: seq<Color>)
    requires 3 * |px| <= |bytes|
    ensures |out| == |px|
    ensures forall i :: 0 <= i < |px| ==> out[i].a == px[i].a
  {
    seq(|px|, i requires 0 <= i < |px| =>
      px[i].(r := bytes[3 * i], g := bytes[3 * i + 1], b := bytes[3 * i + 2]))
  }

  /** Unpacking packed pixels into a Black image restores r, g, b and makes
      every alpha 255. */
  lemma RgbRoundTrip(px: seq<Color>)
    ensures UnpackRgb(PackRgb(px), Fill(Black(), |px|)) == Map(Opaque, px)
  {
    var bytes := PackRgb(px);
    forall i | 0 <= i < |px|
      ensures UnpackRgb(bytes, Fill(Black(), |px|))[i] == Opaque(px[i])
    {
      PackRgbAt(px, i);
      assert bytes[3 * i..3 * i + 3][0] == bytes[3 * i];
      assert bytes[3 * i..3 * i + 3][1] == bytes[3 * i + 1];
      assert bytes[3 * i..3 * i + 3][2] == bytes[3 * i + 2];
    }
  }

  /** Packing after unpacking gives back the bytes that were read. */
  lemma PackUnpack(bytes: seq<Byte>, px: seq<Color>)
    requires 3 * |px| == |bytes|
    ensures PackRgb(UnpackRgb(bytes, px)) == bytes
  {
    var out := UnpackRgb(bytes, px);
    forall j | 0 <= j < |bytes|
      ensures PackRgb(out)[j] == bytes[j]
    {
      var i := j / 3;
      assert j == 3 * i + j % 3;
    }
  }

  /** After k pixels have been read, decoding the next w from data extends
      the decoded prefix by w. */
  lemma UnpackStep(data: seq<Byte>, k: nat, w: nat)
    requires 3 * (k + w) <= |data|
    ensures UnpackRgb(data, Fill(Black(), k)) + UnpackRgb(data[3 * k..3 * k + 3 * w], Fill(Black(), w))
      == UnpackRgb(data, Fill(Black(), k + w))
  {
    var lhs := UnpackRgb(data, Fill(Black(), k)) + UnpackRgb(data[3 * k..3 * k + 3 * w], Fill(Black(), w));
    var rhs := UnpackRgb(data, Fill(Black(), k + w));
    forall i | 0 <= i < k + w
      ensures lhs[i] == rhs[i]
    {
      if i >= k {
        var j := i - k;
        assert 3 * k + 3 * j == 3 * i;
      }
    }
    assert lhs == rhs;
  }
  /** The pack loop of SaveP6 and SaveImageJpeg over one line, into a buffer
      of 3 * width bytes. */
  method PackRgbInto(buff: array<Byte>, line: seq<Color>)
    requires buff.Length == 3 * |line|
    modifies buff
    ensures buff[..] == PackRgb(line)
  {
    var x := 0;
    while x < |line|
      invariant 0 <= x <= |line|
      invariant forall j :: 0 <= j < 3 * x ==> buff[j] == PackedByte(line, j)
    {
      buff[x * 3 + 0] := line[x].r;
      buff[x * 3 + 1] := line[x].g;
      buff[x * 3 + 2] := line[x].b;
      assert (3 * x) / 3 == x && (3 * x) % 3 == 0;
      assert (3 * x + 1) / 3 == x && (3 * x + 1) % 3 == 1;
      assert (3 * x + 2) / 3 == x && (3 * x + 2) % 3 == 2;
      x := x + 1;
    }
  }
}
