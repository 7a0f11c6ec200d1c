/**
What the checksum of the snapshot file of fw_state.c detects, and that the CRC-32 of section 3.2.9 of
IEEE 802.3 is a checksum of that kind.
*/
module SnapshotChecksum {
  import opened Basics
  import opened Prefix
  import opened Text
  import opened SnapshotLine
  import opened SnapshotFile
  import opened SnapshotCut
  import Crc32
  import Whitelist

  // ---------------------------------------------------------------- steps that lose nothing

  predicate Byte(x: char) { x as int < 256 }
  predicate Bytes(s: string) { forall i :: 0 <= i < |s| ==> Byte(s[i]) }

  /** One step tells different states apart, and different bytes. */
  ghost predicate Invertible(step: (U32, char) -> U32) {
    && (forall a: U32, b: U32, x: char :: Byte(x) && step(a, x) == step(b, x) ==> a == b)
    && (forall a: U32, x: char, y: char :: Byte(x) && Byte(y) && step(a, x) == step(a, y) ==> x == y)
  }

  /** Folding the same bytes keeps different states apart. */
  lemma {:induction false} StatesApart(step: (U32, char) -> U32, a: U32, b: U32, s: string)
    requires Invertible(step) && Bytes(s) && Fold(step, a, s) == Fold(step, b, s)
    ensures a == b
    decreases s
  {
    if s != "" { StatesApart(step, a, b, s[..|s| - 1]); }
  }

  /** The checksum tells two texts apart that differ in one byte. */
  lemma ChangeDetected(c: Codec, before: string, x: char, y: char, behind: string)
    requires Invertible(c.crc) && Byte(x) && Byte(y) && Bytes(behind)
    ensures Crc(c, before + [x] + behind) == Crc(c, before + [y] + behind) <==> x == y
  {
    var at := Fold(c.crc, SEED, before);
    FoldChunks(c.crc, SEED, before + [x], behind);
    FoldChunks(c.crc, SEED, before + [y], behind);
    FoldOne(c.crc, before, x);
    FoldOne(c.crc, before, y);
    if Crc(c, before + [x] + behind) == Crc(c, before + [y] + behind) {
      StatesApart(c.crc, c.crc(at, x), c.crc(at, y), behind);
    }
  }

  lemma FoldOne(step: (U32, char) -> U32, s: string, x: char)
    ensures Fold(step, SEED, s + [x]) == step(Fold(step, SEED, s), x)
  {
    assert (s + [x])[..|s + [x]| - 1] == s;
  }

  // ---------------------------------------------------------------- one changed byte in a file

  /** Nothing is restored from an accepted file once a byte of its body is another, its checksum line as before. */
  lemma ChangedBodyRefused(c: Codec, text: string, i: nat, x: char)
    requires Invertible(c.crc) && Bytes(text) && Byte(x)
    requires Verified(c, text).Some? && i < Verified(c, text).value && x != text[i]
    requires CrcLine(text[i := x]) == CrcLine(text)
    ensures Verified(c, text[i := x]).None?
  {
    var n := Verified(c, text).value;
    AroundByte(text, i, n, x);
    ChangeDetected(c, text[..i], text[i], x, text[i + 1..n]);
  }

  lemma AroundByte(text: string, i: nat, n: nat, x: char)
    requires i < n <= |text| - 6
    ensures text[..n] == text[..i] + [text[i]] + text[i + 1..n]
    ensures text[i := x][..n] == text[..i] + [x] + text[i + 1..n]
    ensures text[i := x][n + 6..] == text[n + 6..]
  {
  }

  /**
  A saved file with any one byte changed, its checksum line where it was, is refused or accepted with
  exactly the body that was saved; a change inside the body is always refused.
  */
  lemma ChangedByteDetected(c: Codec, rows: seq<Row>, es: seq<Whitelist.Entry>, unix: nat, i: nat, x: char)
    requires Invertible(c.crc) && Byte(x)
    requires var text := Sealed(c, Body(c, rows, es, unix));
      Bytes(text) && i < |text| && x != text[i] && CrcLine(text[i := x]) == CrcLine(text)
    ensures var body := Body(c, rows, es, unix); var text := Sealed(c, body)[i := x];
      && Safe(c, body, text)
      && (i < |body| ==> Verified(c, text).None?)
  {
    var body := Body(c, rows, es, unix);
    var text := Sealed(c, body);
    UntruncatedAccepted(c, rows, es, unix);
    if i < |body| {
      ChangedBodyRefused(c, text, i, x);
    } else {
      assert text[i := x][..|body|] == body;
    }
  }

  /** CRC-32 loses nothing in a step. */
  lemma Crc32Invertible()
    ensures Invertible((crc: U32, x: char) => Crc32.StepByte(crc, x))
  {
    forall a: U32, b: U32, x: char | Byte(x) && Crc32.StepByte(a, x) == Crc32.StepByte(b, x) ensures a == b {
      Crc32.StepTellsStates(a, b, x);
    }
    forall a: U32, x: char, y: char | Byte(x) && Byte(y) && Crc32.StepByte(a, x) == Crc32.StepByte(a, y)
      ensures x == y
    {
      Crc32.StepTellsBytes(a, x, y);
    }
  }
}
