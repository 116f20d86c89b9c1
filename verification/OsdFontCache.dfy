/** The captured font as the buffers and flags the code updates in place. */
module OsdFontCache {
  import opened Common
  import opened OsdGlyphs
  import opened OsdFont

  class FontCache {
    const fontBytes: array<byte>
    const seenBitmap: array<bv32>
    var count: nat
    var revision: nat
    var path: string
    var pending: bool
    /** The disk, and the EEPROM path found in the environment. */
    var files: map<string, seq<byte>>
    var eeprom: string

    ghost function View(): Font
      reads this, fontBytes, seenBitmap
    {
      Font(fontBytes[..], seenBitmap[..], count, revision, path, pending)
    }

    ghost function Whole(): State
      reads this, fontBytes, seenBitmap
    {
      State(View(), Idle, files, eeprom)
    }

    ghost predicate Ready()
      reads this, fontBytes, seenBitmap
    {
      ValidFont(View())
    }

    constructor (files: map<string, seq<byte>>, eeprom: string)
      ensures fresh(fontBytes) && fresh(seenBitmap)
      ensures Ready()
      ensures View() == Font(fontBytes[..], Words(NO_BITS), 0, 0, "", false)
      ensures this.files == files && this.eeprom == eeprom
    {
      fontBytes := new byte[FONT_BYTES](_ => 0);
      seenBitmap := new bv32[WORDS](_ => NO_BITS);
      count, revision, path, pending := 0, 0, "", false;
      this.files, this.eeprom := files, eeprom;
      new;
      hide Words, ValidFont;
      WordsAre(seenBitmap[..], NO_BITS);
      EmptyIsValid(View());
    }

    /** memset() of the bitmap. */
    method FillSeen(w: bv32)
      requires seenBitmap.Length == WORDS
      modifies seenBitmap
      ensures seenBitmap[..] == Words(w)
    {
      var i := 0;
      while i < WORDS
        invariant 0 <= i <= WORDS
        invariant forall k | 0 <= k < i :: seenBitmap[k] == w
      {
        seenBitmap[i] := w;
        i := i + 1;
      }
      assert seenBitmap[..] == Words(w);
    }

    /** memcpy() of one glyph into the buffer. */
    method CopyGlyph(addr: nat, glyph: seq<byte>)
      requires IsFont(fontBytes[..]) && Cached(addr) && |glyph| == 54
      modifies fontBytes
      ensures fontBytes[..] == Patch(old(fontBytes[..]), addr, glyph)
    {
      var base := 54 * addr;
      var i := 0;
      while i < 54
        invariant 0 <= i <= 54
        invariant forall k | 0 <= k < FONT_BYTES ::
          fontBytes[k] == if base <= k < base + i then glyph[k - base] else old(fontBytes[k])
      {
        fontBytes[base + i] := glyph[i];
        i := i + 1;
      }
      assert fontBytes[..] == Patch(old(fontBytes[..]), addr, glyph);
    }

    /** memcpy() of a whole font. */
    method CopyFont(image: seq<byte>)
      requires fontBytes.Length == FONT_BYTES && IsFont(image)
      modifies fontBytes
      ensures fontBytes[..] == image
    {
      var i := 0;
      while i < FONT_BYTES
        invariant 0 <= i <= FONT_BYTES
        invariant forall k | 0 <= k < i :: fontBytes[k] == image[k]
      {
        fontBytes[i] := image[i];
        i := i + 1;
      }
    }

    method WriteFontCharacter(addr: nat, glyph: seq<byte>)
      requires Ready() && |glyph| == 54
      modifies this`count, this`revision, this`pending, fontBytes, seenBitmap
      ensures Ready()
      ensures View() == if Cached(addr) then Written(old(View()), addr, glyph) else old(View())
    {
      hide CountSeen, Words, Seen, Bit, Mark, Patch;
      if !Cached(addr) {
        return;
      }
      WrittenIsValid(View(), addr, glyph);
      if addr == 0 {
        FillSeen(NO_BITS);
        count := 0;
      }
      CopyGlyph(addr, glyph);
      MarkGlyph(addr);
      revision := (revision + 1) % U32;
      if count == CHARS {
        pending := true;
      }
    }

    /** Sets the bit of a glyph and counts it, unless it was set. */
    method MarkGlyph(addr: nat)
      requires seenBitmap.Length == WORDS && Cached(addr)
      modifies this`count, seenBitmap
      ensures Seen(old(seenBitmap[..]), addr) ==> seenBitmap[..] == old(seenBitmap[..]) && count == old(count)
      ensures !Seen(old(seenBitmap[..]), addr) ==>
        seenBitmap[..] == Mark(old(seenBitmap[..]), addr) && count == old(count) + 1
    {
      hide Seen, MarkedWord, WordOf;
      if !Seen(seenBitmap[..], addr) {
        seenBitmap[WordOf(addr)] := MarkedWord(seenBitmap[..], addr);
        count := count + 1;
      }
    }

    /** The part of the synchronisation done under the lock; returns what is left to do. */
    method SyncLocked() returns (plan: Sync)
      requires Ready()
      modifies this`count, this`path, this`pending, seenBitmap
      ensures Ready()
      ensures View() == Locked(old(View()), eeprom) && plan == Plan(old(View()), eeprom)
    {
      hide CountSeen, Words, FontPath;
      LockedIsValid(View(), eeprom);
      var save, oldPath := pending, path;
      var scratch := fontBytes[..];
      pending := false;
      var newPath := FontPath(eeprom);
      var next: Option<string> := None;
      if newPath != path {
        path := newPath;
        FillSeen(NO_BITS);
        count := 0;
        if newPath != "" {
          next := Some(newPath);
        }
      }
      plan := if save && oldPath != "" then Saving(oldPath, scratch, next) else Proceed(next);
    }

    method WriteFile(to: string, image: seq<byte>, ok: bool)
      modifies this`files
      ensures files == Saved(old(files), to, image, ok)
    {
      if ok {
        files := files[to := image];
      }
    }

    method LoadFile(from: string)
      requires Ready()
      modifies this`count, this`revision, fontBytes, seenBitmap
      ensures Ready()
      ensures View() == Loaded(old(View()), files, from)
    {
      hide CountSeen, Words;
      LoadedIsValid(View(), files, from);
      if from !in files || |files[from]| != FONT_BYTES {
        return;
      }
      CopyFont(files[from]);
      FillSeen(ALL_BITS);
      count := CHARS;
      revision := (revision + 1) % U32;
    }

    method SyncWithPath(ok: bool)
      requires Ready()
      modifies this`count, this`revision, this`path, this`pending, this`files, fontBytes, seenBitmap
      ensures Ready()
      ensures Whole() == AfterSync(old(Whole()), ok)
    {
      hide FontPath, ValidFont;
      var plan := SyncLocked();
      if plan.Saving? {
        WriteFile(plan.to, plan.image, ok);
        plan := Proceed(plan.next);
      }
      if plan.Loading? {
        LoadFile(plan.from);
      }
    }

    /** A buffer that is too small gets nothing and does not even synchronise. */
    method GetFont(size: int, ok: bool) returns (out: Option<seq<byte>>)
      requires Ready()
      modifies this`count, this`revision, this`path, this`pending, this`files, fontBytes, seenBitmap
      ensures Ready()
      ensures size < FONT_BYTES ==> out == None && Whole() == old(Whole())
      ensures size >= FONT_BYTES ==> Whole() == AfterSync(old(Whole()), ok) && out == OsdFont.GetFont(View())
    {
      if size < FONT_BYTES {
        return None;
      }
      SyncWithPath(ok);
      out := if count == CHARS then Some(fontBytes[..]) else None;
    }

    /** The revision is reported as 0 while there is no complete font. */
    method GetFontRevision(ok: bool) returns (r: nat)
      requires Ready()
      modifies this`count, this`revision, this`path, this`pending, this`files, fontBytes, seenBitmap
      ensures Ready()
      ensures Whole() == AfterSync(old(Whole()), ok)
      ensures r == GetRevision(View())
    {
      SyncWithPath(ok);
      r := if count == CHARS then revision else 0;
    }
  }
}
