/** tegraflash_dumpram of tegraflash_internal.py: splitting a dump at 4 GB and merging the parts. */
module RamDump {
  import opened Options
  import opened Bytes

  const BOUNDARY: nat := 0x1_0000_0000
  const BLOCK_SIZE: nat := 10485760

  /** One "--oem dumpram" request. */
  datatype Dump = Dump(offset: nat, size: nat)

  /** What the device returns: size bytes of memory from offset on. */
  function Read(memory: nat -> byte, d: Dump): (b: seq<byte>)
    ensures |b| == d.size
  {
    seq(d.size, i requires 0 <= i => memory(d.offset + i))
  }

  lemma ReadIs(memory: nat -> byte, d: Dump)
    ensures forall i | 0 <= i < d.size :: Read(memory, d)[i] == memory(d.offset + i)
  {
  }

  /** The requests cover [offset, offset + size) once, in order, without empty pieces. */
  ghost predicate Covers(dumps: seq<Dump>, offset: nat, size: nat)
    decreases |dumps|
  {
    if dumps == [] then size == 0 else
    && dumps[0].offset == offset && 0 < dumps[0].size <= size
    && Covers(dumps[1..], offset + dumps[0].size, size - dumps[0].size)
  }

  ghost predicate Straddles(d: Dump)
  {
    d.offset < BOUNDARY < d.offset + d.size
  }

  /** Reading the file in blocks until nothing comes yields the file. */
  method CopyBlocks(fin: seq<byte>, already: seq<byte>) returns (fout: seq<byte>)
    ensures fout == already + fin
  {
    fout := already;
    var pos := 0;
    while true
      invariant 0 <= pos <= |fin| && fout == already + fin[..pos]
      decreases |fin| - pos
    {
      var data := if pos + BLOCK_SIZE <= |fin| then fin[pos..pos + BLOCK_SIZE] else fin[pos..];
      if |data| == 0 {
        break;
      }
      assert fin[..pos] + data == fin[..pos + |data|];
      fout := fout + data;
      pos := pos + |data|;
    }
    assert fin[..pos] == fin;
  }

  /** Two adjacent reads are one longer read. */
  lemma ReadJoins(memory: nat -> byte, offset: nat, a: nat, b: nat)
    ensures Read(memory, Dump(offset, a)) + Read(memory, Dump(offset + a, b)) == Read(memory, Dump(offset, a + b))
  {
    var joined := Read(memory, Dump(offset, a)) + Read(memory, Dump(offset + a, b));
    var whole := Read(memory, Dump(offset, a + b));
    forall i | 0 <= i < a + b
      ensures joined[i] == whole[i]
    {
      if i >= a {
        assert joined[i] == Read(memory, Dump(offset + a, b))[i - a];
      }
    }
  }

  /**
   * tegraflash_dumpram; a size of 0 or less raises. The requests cover the range once and in order,
   * none reaches across 4 GB, and the output file is the requested range.
   */
  method DumpRam(offset: nat, size: int, memory: nat -> byte)
      returns (dumps: seq<Dump>, file: Option<seq<byte>>)
    ensures file.Some? <==> size > 0
    ensures size > 0 ==> Covers(dumps, offset, size)
    ensures size > 0 ==> |file.value| == size && forall i | 0 <= i < size :: file.value[i] == memory(offset + i)
    ensures forall d | d in dumps :: !Straddles(d)
    ensures size > 0 ==> (|dumps| == 2 <==> offset < BOUNDARY < offset + size)
  {
    ReadIs(memory, Dump(offset, if size <= 0 then 0 else size));
    if size <= 0 {
      return [], None;
    }
    var boundary := offset + size - 1;
    if boundary <= 0xFFFF_FFFF {
      dumps := [Dump(offset, size)];
      file := Some(Read(memory, dumps[0]));
    } else if boundary > 0xFFFF_FFFF && offset <= 0xFFFF_FFFF {
      var memoryLeft := 0x1_0000_0000 - offset;
      var first := Dump(offset, memoryLeft);
      var memoryDumped := 0x1_0000_0000 - offset;
      memoryLeft := size - memoryDumped;
      var second := Dump(0x1_0000_0000, memoryLeft);
      dumps := [first, second];
      var tempFiles := [Read(memory, first), Read(memory, second)];
      var out: seq<byte> := [];
      out := CopyBlocks(tempFiles[0], out);
      out := CopyBlocks(tempFiles[1], out);
      ReadJoins(memory, offset, memoryDumped, memoryLeft);
      assert dumps[1..] == [second] && [second][1..] == [];
      assert [] + tempFiles[0] == tempFiles[0];
      file := Some(out);
    } else {
      dumps := [Dump(offset, size)];
      file := Some(Read(memory, dumps[0]));
    }
  }
}
