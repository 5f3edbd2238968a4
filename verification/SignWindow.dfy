/** The signing window of tegrasign_v3_internal.py: offset and length, block truncation and splicing. */
module SignWindow {
  import opened Options
  import opened Bytes

  const BLOCK_LEN: nat := 16

  datatype Window = Window(offset: nat, length: nat)

  /**
   * The window a caller asks for with offset >= 0: length bytes, or up to the end of the file when
   * length is 0 or less. It must lie inside the file.
   */
  ghost predicate Asks(fileSize: nat, offset: nat, length: int, w: Window)
  {
    && w.offset == offset && offset + w.length <= fileSize
    && (if length > 0 then w.length == length else w.offset + w.length == fileSize)
  }

  function Select(fileSize: nat, offset: nat, length: int): (r: Option<Window>)
    ensures r.Some? <==> exists w :: Asks(fileSize, offset, length, w)
    ensures r.Some? ==> Asks(fileSize, offset, length, r.value)
  {
    var w := Window(offset, if length > 0 then length else if offset <= fileSize then fileSize - offset else 0);
    assert forall v :: Asks(fileSize, offset, length, v) ==> v == w;
    assert w.offset + w.length <= fileSize ==> Asks(fileSize, offset, length, w);
    if w.offset + w.length <= fileSize then Some(w) else None
  }

  /** What the two functions that compute the length first make of a negative offset. */
  function LengthFirst(fileSize: nat, offset: int, length: int): Option<Window>
  {
    if offset >= 0 then Select(fileSize, offset, length) else
    if length > 0 then Select(fileSize, 0, length) else None
  }

  /** What sign_single_file makes of a negative offset. */
  function OffsetFirst(fileSize: nat, offset: int, length: int): Option<Window>
  {
    Select(fileSize, if offset >= 0 then offset else 0, length)
  }

  /** The three normalisations agree except for a negative offset without a length. */
  lemma WindowsAgree(fileSize: nat, offset: int, length: int)
    ensures LengthFirst(fileSize, offset, length) == OffsetFirst(fileSize, offset, length)
       <==> offset >= 0 || length > 0
    ensures offset < 0 && length <= 0 ==>
      LengthFirst(fileSize, offset, length) == None
      && OffsetFirst(fileSize, offset, length) == Some(Window(0, fileSize))
  {
    assert Asks(fileSize, 0, 0, Window(0, fileSize));
  }

  /** With an offset of 0 or more, all three choose exactly the window that is asked for. */
  lemma WindowsAsk(fileSize: nat, offset: nat, length: int)
    ensures forall w :: LengthFirst(fileSize, offset, length) == Some(w) <==> Asks(fileSize, offset, length, w)
    ensures forall w :: OffsetFirst(fileSize, offset, length) == Some(w) <==> Asks(fileSize, offset, length, w)
  {
  }

  /** With a negative one, a window at the start of the file, if a length is given. */
  lemma WindowsAtStart(fileSize: nat, offset: int, length: int)
    requires offset < 0 < length
    ensures forall w :: LengthFirst(fileSize, offset, length) == Some(w) <==> Asks(fileSize, 0, length, w)
    ensures forall w :: OffsetFirst(fileSize, offset, length) == Some(w) <==> Asks(fileSize, 0, length, w)
  {
  }

  /** sign_files_internal; None where exit_routine ends the run. */
  method SignFilesWindow(fileSize: nat, offset_: int, length_: int) returns (r: Option<Window>)
    ensures r == LengthFirst(fileSize, offset_, length_)
  {
    var offset, length := offset_, length_;
    length := if length > 0 then length else fileSize - offset;
    offset := if offset > 0 then offset else 0;
    if fileSize < offset {
      length := 0;
      return None;
    }
    if offset + length > fileSize {
      return None;
    }
    r := Some(Window(offset, length));
  }

  /** sign_single_file. */
  method SignSingleWindow(fileSize: nat, offset_: int, length_: int) returns (r: Option<Window>)
    ensures r == OffsetFirst(fileSize, offset_, length_)
  {
    var offset, length := offset_, length_;
    offset := if offset > 0 then offset else 0;
    length := if length > 0 then length else fileSize - offset;
    if fileSize < offset {
      length := 0;
      return None;
    }
    if offset + length > fileSize {
      return None;
    }
    r := Some(Window(offset, length));
  }

  /** do_sha256. */
  method Sha256Window(fileSize: nat, offset_: int, length_: int) returns (r: Option<Window>)
    ensures r == LengthFirst(fileSize, offset_, length_)
  {
    var offset, length := offset_, length_;
    length := if length > 0 then length else fileSize - offset;
    offset := if offset > 0 then offset else 0;
    if fileSize < offset {
      length := 0;
      return None;
    }
    if offset + length > fileSize {
      return None;
    }
    r := Some(Window(offset, length));
  }

  // ----- encryption and splicing

  /** The foreign cipher: do_aes_cbc returns as many bytes as the truncated length. */
  ghost predicate KeepsLength(cipher: (seq<byte>, nat) -> seq<byte>)
  {
    forall b, n :: |cipher(b, n)| == n
  }

  /** The part of the window that is encrypted: its whole blocks. */
  function Blocks(w: Window): (n: nat)
    ensures n <= w.length && n % 16 == 0 && w.length - n == w.length % 16
  {
    w.length / BLOCK_LEN * BLOCK_LEN
  }

  /**
   * What the spliced file must be. Encrypted: same size, changed only in the whole blocks of the
   * window. Skipped: the bytes behind the last whole block appear twice.
   */
  ghost predicate Spliced(data: seq<byte>, w: Window, skip: bool, cipher: (seq<byte>, nat) -> seq<byte>, out: seq<byte>)
    requires w.offset + w.length <= |data|
  {
    var window, stop := data[w.offset..w.offset + w.length], w.offset + Blocks(w);
    if skip then
      && |out| == |data| + w.length % 16
      && out[..w.offset + w.length] == data[..w.offset + w.length]
      && out[w.offset + w.length..] == data[stop..]
    else
      && |out| == |data|
      && out[..w.offset] == data[..w.offset]
      && out[w.offset..stop] == cipher(window, Blocks(w))
      && out[stop..] == data[stop..]
  }

  /** The SBK and FSKP branches of sign_files_internal and sign_single_file. */
  method Splice(data: seq<byte>, w: Window, skip: bool, cipher: (seq<byte>, nat) -> seq<byte>) returns (out: seq<byte>)
    requires w.offset + w.length <= |data| && KeepsLength(cipher)
    ensures Spliced(data, w, skip, cipher, out)
  {
    var toSign := data[w.offset..w.offset + w.length];
    var numAesBlocks := w.length / BLOCK_LEN;
    var length := numAesBlocks * BLOCK_LEN;
    var enc := toSign;
    if !skip {
      enc := cipher(toSign, length);
    }
    out := data[..w.offset] + enc + data[w.offset + length..];
    assert out[..w.offset + |enc|] == data[..w.offset] + enc;
    assert data[..w.offset] + toSign == data[..w.offset + w.length];
  }

  /** Skipping encryption leaves the file alone exactly when the window is a whole number of blocks. */
  lemma SkipIsIdentity(data: seq<byte>, w: Window, cipher: (seq<byte>, nat) -> seq<byte>, out: seq<byte>)
    requires w.offset + w.length <= |data| && Spliced(data, w, true, cipher, out)
    ensures out == data <==> w.length % 16 == 0
    ensures |out| == |data| + w.length % 16
  {
    if w.length % 16 == 0 {
      var stop := w.offset + w.length;
      assert out == out[..stop] + out[stop..];
      assert data == data[..stop] + data[stop..];
    }
  }

  /** Encryption changes bytes only in the whole blocks of the window. */
  lemma EncryptIsLocal(data: seq<byte>, w: Window, cipher: (seq<byte>, nat) -> seq<byte>, out: seq<byte>, i: nat)
    requires w.offset + w.length <= |data| && Spliced(data, w, false, cipher, out)
    requires i < |data| && !(w.offset <= i < w.offset + 16 * (w.length / 16))
    ensures |out| == |data| && out[i] == data[i]
  {
    var stop := w.offset + Blocks(w);
    if i < w.offset {
      assert out[i] == out[..w.offset][i] == data[..w.offset][i];
    } else {
      assert out[i] == out[stop..][i - stop] == data[stop..][i - stop];
    }
  }
}
