/** Block headers, and the word macros that read and recolour them. */
module HeaderWord {
  import opened ColorCodec

  /** An OCaml block header: size in words, two colour bits, eight tag bits. */
  datatype Header = Header(wosize: nat, color: Color, tag: nat)

  /** Coloredhd_hd on the fields of a header. */
  function Recolor(h: Header, color: Color): Header {
    h.(color := color)
  }

  const CAML_BLACK: bv64 := 3 << 8

  function ColorBits(c: Color): bv64 {
    if c == 0 then 0 else if c == 1 then 1 else if c == 2 then 2 else 3
  }

  /** Colornum_hd */
  function ColornumHd(hd: bv64): bv64 {
    (hd >> 8) & 3
  }

  /** Coloredhd_hd */
  function ColoredHd(hd: bv64, color: bv64): bv64 {
    (hd & !CAML_BLACK) | (color << 8)
  }

  function WosizeHd(hd: bv64): bv64 {
    hd >> 10
  }

  function TagHd(hd: bv64): bv64 {
    hd & 255
  }

  /** The word w encodes the header h. */
  ghost predicate Encodes(hd: bv64, h: Header) {
    && ColornumHd(hd) == ColorBits(h.color)
    && WosizeHd(hd) as nat == h.wosize
    && TagHd(hd) as nat == h.tag
  }

  /** The word macro does to the word what Recolor does to the header, and nothing else. */
  lemma ColoredHdRecolors(hd: bv64, h: Header, color: Color)
    requires Encodes(hd, h)
    ensures Encodes(ColoredHd(hd, ColorBits(color)), Recolor(h, color))
  {
    FieldsOfColored(hd, ColorBits(color));
  }

  /** Painting a header over and painting its own colour back leaves the very same word. */
  lemma RepaintRestores(hd: bv64, paint: bv64)
    requires paint < 4
    ensures ColoredHd(ColoredHd(hd, paint), ColornumHd(hd)) == hd
  {
  }

  lemma FieldsOfColored(hd: bv64, color: bv64)
    requires color < 4
    ensures ColornumHd(ColoredHd(hd, color)) == color
    ensures WosizeHd(ColoredHd(hd, color)) == WosizeHd(hd)
    ensures TagHd(ColoredHd(hd, color)) == TagHd(hd)
  {
  }

  /** A black string of two words, painted blue */
  lemma WordOfString()
    ensures Encodes(0xBFC, Header(2, 3, 252)) && ColoredHd(0xBFC, 2) == 0xAFC
  {
    assert (0xBFC as bv64 >> 8) & 3 == 3 && 0xBFC as bv64 >> 10 == 2 && 0xBFC as bv64 & 255 == 252;
  }
}
