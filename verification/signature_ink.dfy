/**
 * The recolouring pass applied to the signature before it is composited
 * onto the document: in the RGBA pixel data of the signature canvas, every
 * pixel that is not fully transparent becomes opaque black.
 */
module SignatureInk {

  /** One channel value of `ImageData.data`, a clamped byte array. */
  newtype Byte = b: int | 0 <= b < 256

  /** An opaque black pixel. */
  const Black: seq<Byte> := [0, 0, 0, 255]

  /** One RGBA pixel after the pass: black when its alpha is positive, unchanged otherwise. */
  function Pixel(px: seq<Byte>): (r: seq<Byte>)
    requires |px| == 4
    ensures |r| == 4
    ensures px[3] > 0 <==> r == Black
    ensures px[3] == 0 ==> r == px
  {
    if px[3] > 0 then Black else px
  }

  /**
   * The bytes after the pass, pixel by pixel. A trailing partial pixel is
   * left alone: its alpha index lies past the end, and reading it gives
   * `undefined`, which is never positive.
   */
  function Ink(data: seq<Byte>): (r: seq<Byte>)
    ensures |r| == |data|
  {
    if |data| < 4 then data else Pixel(data[..4]) + Ink(data[4..])
  }

  /** Pixel `p` of the result is pixel `p` of the input after the pass. */
  lemma {:induction false} InkPixel(data: seq<Byte>, p: nat)
    requires 4 * p + 4 <= |data|
    ensures Ink(data)[4 * p .. 4 * p + 4] == Pixel(data[4 * p .. 4 * p + 4])
  {
    var r := Ink(data);
    var rest := Ink(data[4..]);
    assert r == Pixel(data[..4]) + rest;
    if p == 0 {
      assert r[..4] == Pixel(data[..4]);
    } else {
      InkPixel(data[4..], p - 1);
      assert r[4 * p .. 4 * p + 4] == rest[4 * (p - 1) .. 4 * (p - 1) + 4];
      assert data[4..][4 * (p - 1) .. 4 * (p - 1) + 4] == data[4 * p .. 4 * p + 4];
    }
  }

  /** The pass works on whole pixels, so it distributes over a split at a pixel boundary. */
  lemma {:induction false} InkAppend(a: seq<Byte>, b: seq<Byte>, n: nat)
    requires |a| == 4 * n
    ensures Ink(a + b) == Ink(a) + Ink(b)
  {
    if n > 0 {
      InkAppend(a[4..], b, n - 1);
      assert (a + b)[..4] == a[..4];
      assert (a + b)[4..] == a[4..] + b;
    } else {
      assert a + b == b;
    }
  }

  /**
   * The `for (i = 0; i < data.length; i += 4)` loop of `saveFinalDocument`,
   * over the pixel buffer held as a value: the source's buffer is a fresh
   * `ImageData.data` that nothing else reads while the loop runs.
   */
  method Recolour(data: seq<Byte>) returns (out: seq<Byte>)
    ensures out == Ink(data)
  {
    out := data;
    var i, n := 0, 0;
    while i < |data|
      invariant i == 4 * n
      invariant i <= |data| ==> out == Ink(data[..i]) + data[i..]
      invariant i > |data| ==> out == Ink(data)
    {
      var before := out;
      if i + 3 < |out| && out[i + 3] > 0 {
        out := out[i := 0][i + 1 := 0][i + 2 := 0][i + 3 := 255];
      }
      RecolourStep(data, i, n, before, out);
      i, n := i + 4, n + 1;
    }
    if i == |data| {
      assert data[..i] == data && data[i..] == [];
    }
  }

  /** One iteration of `Recolour`, stated on the bytes before and after it. */
  lemma RecolourStep(data: seq<Byte>, i: nat, n: nat, before: seq<Byte>, out: seq<Byte>)
    requires i == 4 * n && i < |data|
    requires before == Ink(data[..i]) + data[i..]
    requires out == if i + 3 < |before| && before[i + 3] > 0
      then before[i := 0][i + 1 := 0][i + 2 := 0][i + 3 := 255]
      else before
    ensures i + 4 <= |data| ==> out == Ink(data[..i + 4]) + data[i + 4..]
    ensures i + 4 > |data| ==> out == Ink(data)
  {
    if i + 4 <= |data| {
      assert before[i + 3] == data[i + 3];
      RecolourWholePixel(data, i, n, out);
    } else {
      InkAppend(data[..i], data[i..], n);
      assert data[..i] + data[i..] == data;
    }
  }

  /** `RecolourStep` for a pixel whose four bytes are all present. */
  lemma RecolourWholePixel(data: seq<Byte>, i: nat, n: nat, out: seq<Byte>)
    requires i == 4 * n && i + 4 <= |data|
    requires var before := Ink(data[..i]) + data[i..];
      out == if data[i + 3] > 0
        then before[i := 0][i + 1 := 0][i + 2 := 0][i + 3 := 255]
        else before
    ensures out == Ink(data[..i + 4]) + data[i + 4..]
  {
    var head, px, tail := data[..i], data[i..i + 4], data[i + 4..];
    var pre := Ink(head);
    assert Ink(data[..i]) + data[i..] == pre + px + tail by {
      assert data[i..] == px + tail;
    }
    assert px[3] == data[i + 3];
    PixelUpdate(pre, px, tail);
    assert out == pre + Pixel(px) + tail;
    assert Ink(px) == Pixel(px) by {
      assert Ink(px[4..]) == [];
    }
    InkAppend(head, px, n);
    assert head + px == data[..i + 4];
  }

  /** Overwriting the four bytes of a pixel, as the loop body does, applies `Pixel` to it. */
  lemma PixelUpdate(pre: seq<Byte>, px: seq<Byte>, post: seq<Byte>)
    requires |px| == 4
    ensures var i := |pre|;
      var s := pre + px + post;
      (if px[3] > 0 then s[i := 0][i + 1 := 0][i + 2 := 0][i + 3 := 255] else s) == pre + Pixel(px) + post
  {
    var i := |pre|;
    var s := pre + px + post;
    if px[3] > 0 {
      var u := s[i := 0][i + 1 := 0][i + 2 := 0][i + 3 := 255];
      var v := pre + Black + post;
      assert |u| == |v|;
      forall k | 0 <= k < |u| ensures u[k] == v[k] {
        if k < i {
        } else if k < i + 4 {
        } else {
          assert u[k] == post[k - i - 4];
        }
      }
    }
  }

  /** Recolouring twice gives the same bytes as recolouring once. */
  lemma {:induction false} InkIdempotent(data: seq<Byte>)
    ensures Ink(Ink(data)) == Ink(data)
  {
    if |data| >= 4 {
      var once := Ink(data);
      InkIdempotent(data[4..]);
      assert once[..4] == Pixel(data[..4]);
      assert once[4..] == Ink(data[4..]);
    }
  }

  /** After the pass every complete pixel is either fully transparent or opaque. */
  lemma InkAlphaBinary(data: seq<Byte>, p: nat)
    requires 4 * p + 4 <= |data|
    ensures Ink(data)[4 * p + 3] == 0 || Ink(data)[4 * p + 3] == 255
  {
    InkPixel(data, p);
    var px := Ink(data)[4 * p .. 4 * p + 4];
    assert Ink(data)[4 * p + 3] == px[3];
    assert px == Pixel(data[4 * p .. 4 * p + 4]);
  }

  /** A complete pixel with zero alpha keeps all four of its bytes; any other becomes opaque black. */
  lemma InkOfPixel(data: seq<Byte>, p: nat)
    requires 4 * p + 4 <= |data|
    ensures data[4 * p + 3] == 0 ==> Ink(data)[4 * p .. 4 * p + 4] == data[4 * p .. 4 * p + 4]
    ensures data[4 * p + 3] > 0 ==> Ink(data)[4 * p .. 4 * p + 4] == Black
  {
    InkPixel(data, p);
    assert data[4 * p .. 4 * p + 4][3] == data[4 * p + 3];
  }
}
