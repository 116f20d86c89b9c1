/**
 The pieces of the captured OSD font: the 256 glyphs of 54 bytes in one buffer, the bitmap
 of glyphs seen, and the file beside the EEPROM that keeps an aircraft's font.
 */
module OsdGlyphs {
  import opened Common

  const CHARS := 256
  const FONT_BYTES := 13824
  const WORDS := 8
  const MAX_PATH := 260
  const FONT_FILE := "osd_font.bin"
  const U32 := 0x1_0000_0000

  // ---- where an aircraft's font lives ----

  predicate IsSeparator(c: char) {
    c == '\\' || c == '/'
  }

  /** The path up to and including its last separator. */
  function DirectoryPart(path: string): (d: string)
    ensures d <= path
    ensures d != "" ==> IsSeparator(d[|d| - 1])
    ensures forall k | |d| <= k < |path| :: !IsSeparator(path[k])
  {
    if path == "" then ""
    else if IsSeparator(path[|path| - 1]) then path
    else DirectoryPart(path[..|path| - 1])
  }

  /** osdFontPath(): empty when there is no directory part or the result would not fit. */
  function FontPath(eeprom: string): string {
    var dir := DirectoryPart(eeprom);
    if dir == "" || |dir| + |FONT_FILE| + 1 > MAX_PATH then "" else dir + FONT_FILE
  }

  /** Two EEPROM files share a font exactly when they are in the same directory. */
  lemma FontIsPerDirectory(a: string, b: string)
    requires FontPath(a) != "" && FontPath(b) != ""
    ensures FontPath(a) == FontPath(b) <==> DirectoryPart(a) == DirectoryPart(b)
  {
    var d, e := DirectoryPart(a), DirectoryPart(b);
    if d + FONT_FILE == e + FONT_FILE {
      assert d == (d + FONT_FILE)[..|d|] == (e + FONT_FILE)[..|e|] == e;
    }
  }

  /** The font lies beside the EEPROM file, unless the directory is too long or there is none. */
  lemma FontPathIs(dir: string, name: string)
    requires forall k | 0 <= k < |name| :: name[k] != '\\' && name[k] != '/'
    requires dir != "" ==> dir[|dir| - 1] in {'\\', '/'}
    ensures FontPath(dir + name) == if 1 <= |dir| <= 247 then dir + "osd_font.bin" else ""
  {
    var d := DirectoryPart(dir + name);
    forall k | |dir| <= k < |dir + name|
      ensures !IsSeparator((dir + name)[k])
    {
      assert (dir + name)[k] == name[k - |dir|];
    }
    assert dir == (dir + name)[..|dir|];
  }

  // ---- the bitmap ----

  function Bit(addr: nat): bv32 {
    (1 as bv32) << (addr % 32)
  }

  /** The word that holds a glyph's bit. */
  function WordOf(addr: nat): (i: nat)
    requires addr < CHARS
    ensures i < WORDS
  {
    addr / 32
  }

  predicate Seen(words: seq<bv32>, addr: nat)
    requires |words| == WORDS && addr < CHARS
  {
    words[WordOf(addr)] & Bit(addr) != 0
  }

  /** The glyph's word with its bit set. */
  function MarkedWord(words: seq<bv32>, addr: nat): bv32
    requires |words| == WORDS && addr < CHARS
  {
    words[WordOf(addr)] | Bit(addr)
  }

  function Mark(words: seq<bv32>, addr: nat): (w: seq<bv32>)
    requires |words| == WORDS && addr < CHARS
    ensures |w| == WORDS
  {
    words[WordOf(addr) := MarkedWord(words, addr)]
  }

  /** memset() of the bitmap. */
  function Words(w: bv32): (r: seq<bv32>)
    ensures |r| == WORDS && forall i | 0 <= i < WORDS :: r[i] == w
  {
    [w, w, w, w, w, w, w, w]
  }

  lemma WordsAre(r: seq<bv32>, w: bv32)
    requires |r| == WORDS && forall i | 0 <= i < WORDS :: r[i] == w
    ensures r == Words(w)
  {
  }

  const NO_BITS: bv32 := 0
  const ALL_BITS: bv32 := 0xFFFFFFFF

  /** How many of the first n glyphs have their bit set. */
  function CountSeen(words: seq<bv32>, n: nat): nat
    requires |words| == WORDS && n <= CHARS
  {
    if n == 0 then 0 else CountSeen(words, n - 1) + if Seen(words, n - 1) then 1 else 0
  }

  lemma AndOverOr(w: bv32, b: bv32, c: bv32)
    ensures (w | b) & c != 0 <==> w & c != 0 || b & c != 0
  {
  }

  lemma BitsAreDistinct(i: nat, j: nat)
    ensures Bit(i) & Bit(j) != 0 <==> i % 32 == j % 32
  {
  }

  lemma MarkedIsSeen(words: seq<bv32>, addr: nat, a: nat)
    requires |words| == WORDS && addr < CHARS && a < CHARS
    ensures Seen(Mark(words, addr), a) <==> a == addr || Seen(words, a)
  {
    BitsAreDistinct(addr, a);
    SameGlyph(addr, a);
    AndOverOr(words[WordOf(addr)], Bit(addr), Bit(a));
    hide Bit, WordOf;
  }

  lemma SameGlyph(a: nat, b: nat)
    requires a < CHARS && b < CHARS
    ensures a == b <==> WordOf(a) == WordOf(b) && a % 32 == b % 32
  {
  }

  /** Setting the bit of a glyph not yet seen makes one more, and of another none. */
  lemma {:induction false} MarkAddsOne(words: seq<bv32>, addr: nat, n: nat)
    requires |words| == WORDS && addr < CHARS && n <= CHARS
    ensures CountSeen(Mark(words, addr), n) ==
            CountSeen(words, n) + if addr < n && !Seen(words, addr) then 1 else 0
  {
    hide Seen, Mark;
    if n > 0 {
      MarkAddsOne(words, addr, n - 1);
      MarkedIsSeen(words, addr, n - 1);
    }
  }

  /** The count is full exactly when every bit is set. */
  lemma {:induction false} CountIsFullIff(words: seq<bv32>, n: nat)
    requires |words| == WORDS && n <= CHARS
    ensures CountSeen(words, n) <= n
    ensures CountSeen(words, n) == n <==> forall a: nat | a < n :: Seen(words, a)
  {
    hide Seen;
    if n > 0 {
      CountIsFullIff(words, n - 1);
    }
  }

  lemma {:induction false} NoneAndAllSeen(n: nat)
    requires n <= CHARS
    ensures CountSeen(Words(NO_BITS), n) == 0 && CountSeen(Words(ALL_BITS), n) == n
  {
    hide Seen, Words;
    if n > 0 {
      NoneAndAllSeen(n - 1);
      NoneAndAllAt(n - 1);
    }
  }

  lemma NoneAndAllAt(a: nat)
    requires a < CHARS
    ensures !Seen(Words(NO_BITS), a) && Seen(Words(ALL_BITS), a)
  {
    BitIsSet(a);
    hide Bit;
  }

  lemma BitIsSet(addr: nat)
    ensures ALL_BITS & Bit(addr) != 0 && NO_BITS & Bit(addr) == 0
  {
  }

  // ---- the buffer ----

  ghost predicate IsFont(font: seq<byte>) {
    |font| == FONT_BYTES
  }

  /** The 54 bytes of one character. */
  function Glyph(font: seq<byte>, addr: nat): (g: seq<byte>)
    requires IsFont(font) && addr < CHARS
    ensures |g| == 54
  {
    font[54 * addr..54 * addr + 54]
  }

  /** memcpy() of a glyph to its place. */
  function Patch(font: seq<byte>, addr: nat, glyph: seq<byte>): (f: seq<byte>)
    requires IsFont(font) && addr < CHARS && |glyph| == 54
    ensures IsFont(f)
  {
    font[..54 * addr] + glyph + font[54 * addr + 54..]
  }

  /** Storing a glyph changes that character and no other. */
  lemma PatchedGlyph(font: seq<byte>, addr: nat, glyph: seq<byte>, a: nat)
    requires IsFont(font) && addr < CHARS && a < CHARS && |glyph| == 54
    ensures Glyph(Patch(font, addr, glyph), a) == if a == addr then glyph else Glyph(font, a)
  {
    var f := Patch(font, addr, glyph);
    if a == addr {
      assert Glyph(f, a) == glyph;
    } else {
      forall k | 54 * a <= k < 54 * a + 54
        ensures f[k] == font[k]
      {
      }
      assert Glyph(f, a) == Glyph(font, a);
    }
  }

  /** A font is determined by its glyphs. */
  lemma GlyphsDetermineFont(f: seq<byte>, g: seq<byte>)
    requires IsFont(f) && IsFont(g)
    requires forall a: nat | a < CHARS :: Glyph(f, a) == Glyph(g, a)
    ensures f == g
  {
    forall k | 0 <= k < FONT_BYTES
      ensures f[k] == g[k]
    {
      var a: nat := k / 54;
      assert a < CHARS;
      assert Glyph(f, a)[k - 54 * a] == Glyph(g, a)[k - 54 * a];
    }
  }
}
