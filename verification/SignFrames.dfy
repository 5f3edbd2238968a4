/**
 * The argument frames of tegrasign_v3_internal.py: a table of 4-byte sizes, then the fields, written
 * for tegraopenssl by six functions.
 */
module SignFrames {
  import opened Options
  import opened Bytes
  import opened AesKey

  const WORD := 0x1_0000_0000

  // ----- names

  /** str.encode("utf-8") of one character. */
  function Utf8(c: char): (b: seq<byte>)
    ensures |b| >= 1
    ensures |b| == 1 <==> c < 128 as char
    ensures c < 128 as char ==> b == [c as int]
  {
    var v := c as int;
    if v < 0x80 then [v]
    else if v < 0x800 then [0xc0 + v / 64, 0x80 + v % 64]
    else if v < 0x1_0000 then [0xe0 + v / 4096, 0x80 + v / 64 % 64, 0x80 + v % 64]
    else [0xf0 + v / 262144 % 8, 0x80 + v / 4096 % 64, 0x80 + v / 64 % 64, 0x80 + v % 64]
  }

  /** A byte behind the first one of a character. */
  predicate Continues(b: int)
  {
    0x80 <= b < 0xc0
  }

  lemma SixBits(v: nat)
    ensures v == 0x40 * (v / 64) + v % 64
    ensures v == 0x1000 * (v / 4096) + 0x40 * (v / 64 % 64) + v % 64
    ensures v == 0x4_0000 * (v / 262144) + 0x1000 * (v / 4096 % 64) + 0x40 * (v / 64 % 64) + v % 64
  {
    var a := v / 64;
    var b := a / 64;
    assert v / 4096 == b && v / 262144 == b / 64;
    assert v == 64 * a + v % 64 && a == 64 * b + a % 64 && b == 64 * (b / 64) + b % 64;
  }

  /** The bytes of a character of more than one byte tell how many they are, and give the code point back. */
  lemma Utf8Two(c: char)
    requires 0x80 <= c as int < 0x800
    ensures var b: seq<int> := Utf8(c);
      |b| == 2 && 0xc0 <= b[0] < 0xe0 && Continues(b[1]) && c as int == 0x40 * (b[0] - 0xc0) + (b[1] - 0x80)
  {
    SixBits(c as int);
  }

  lemma Utf8Three(c: char)
    requires 0x800 <= c as int < 0x1_0000
    ensures var b: seq<int> := Utf8(c);
      && |b| == 3 && 0xe0 <= b[0] < 0xf0 && Continues(b[1]) && Continues(b[2])
      && c as int == 0x1000 * (b[0] - 0xe0) + 0x40 * (b[1] - 0x80) + (b[2] - 0x80)
  {
    SixBits(c as int);
  }

  lemma Utf8Four(c: char)
    requires c as int >= 0x1_0000
    ensures var b: seq<int> := Utf8(c);
      && |b| == 4 && 0xf0 <= b[0] < 0xf8 && Continues(b[1]) && Continues(b[2]) && Continues(b[3])
      && c as int == 0x4_0000 * (b[0] - 0xf0) + 0x1000 * (b[1] - 0x80) + 0x40 * (b[2] - 0x80) + (b[3] - 0x80)
  {
    SixBits(c as int);
    assert c as int < 0x11_0000;
    assert c as int / 262144 % 8 == c as int / 262144;
  }

  lemma {:induction false} Utf8NotZero(name: string)
    requires 0 as char !in name
    ensures 0 !in Utf8Of(name)
  {
    if name != [] {
      Utf8NotZero(name[1..]);
      assert name[0] in name && 0 !in Utf8(name[0]);
    }
  }

  function Utf8Of(name: string): seq<byte>
  {
    if name == [] then [] else Utf8(name[0]) + Utf8Of(name[1..])
  }

  /** The encoded name has as many bytes as characters exactly when it is ASCII. */
  lemma {:induction false} Utf8Length(name: string)
    ensures |Utf8Of(name)| >= |name|
    ensures |Utf8Of(name)| == |name| <==> AsciiText(name)
    ensures AsciiText(name) ==> Utf8Of(name) == Encoded(name)
  {
    hide Utf8;
    if name != [] {
      Utf8Length(name[1..]);
      assert AsciiText(name) <==> name[0] < 128 as char && AsciiText(name[1..]) by {
        if name[0] < 128 as char && AsciiText(name[1..]) {
          forall i | 0 <= i < |name|
            ensures name[i] < 128 as char
          {
            if i > 0 {
              assert name[1..][i - 1] == name[i];
            }
          }
        }
      }
    }
  }

  // ----- requests: the arguments of the six functions

  datatype Kind = CmacKind | CbcKind | RsaKind | EccKind | EdKind | ShaKind

  datatype Request =
    | Cmac(key: seq<byte>, keysize: nat, length: nat, buff: seq<byte>, resultName: string)
    | Cbc(key: seq<byte>, keysize: nat, length: nat, buff: seq<byte>, resultName: string)
    | Rsa(fileName: string, keysize: nat, length: nat, buff: seq<byte>, pkh: Option<string>, mont: Option<string>,
          resultName: string)
    | Ecc(fileName: string, keysize: nat, length: nat, buff: seq<byte>, pkh: Option<string>, resultName: string)
    | Ed(fileName: string, keysize: nat, length: nat, buff: seq<byte>, pkh: Option<string>, resultName: string)
    | Sha(buff: seq<byte>, hashName: string)

  function KindOf(r: Request): Kind
  {
    match r
    case Cmac(_, _, _, _, _) => CmacKind
    case Cbc(_, _, _, _, _) => CbcKind
    case Rsa(_, _, _, _, _, _, _) => RsaKind
    case Ecc(_, _, _, _, _, _) => EccKind
    case Ed(_, _, _, _, _, _) => EdKind
    case Sha(_, _) => ShaKind
  }

  const NUL: seq<byte> := [0]

  /** "0" * n */
  function Digits0(n: nat): (b: seq<byte>)
    ensures |b| == n
  {
    seq(n, _ => 0x30)
  }

  /** A number in as many bytes as it needs. */
  function Num(v: nat): (b: seq<byte>)
    ensures |b| == ByteCnt(v)
  {
    Le(ByteCnt(v), v)
  }

  function CString(name: string): seq<byte>
  {
    Utf8Of(name) + NUL
  }

  /** A name field ends at its first zero byte, as a C string does. */
  lemma CStringEnds(name: string)
    requires 0 as char !in name
    ensures forall i | 0 <= i < |CString(name)| :: CString(name)[i] == 0 <==> i == |CString(name)| - 1
  {
    hide Utf8Of;
    Utf8NotZero(name);
    assert forall i | 0 <= i < |Utf8Of(name)| :: CString(name)[i] == Utf8Of(name)[i] && Utf8Of(name)[i] in Utf8Of(name);
  }

  /** An optional name: nothing at all when it is not given. */
  function OptField(name: Option<string>): seq<byte>
  {
    match name
    case None => []
    case Some(s) => CString(s)
  }

  function OptSize(name: Option<string>): nat
  {
    match name
    case None => 0
    case Some(s) => |s| + 1
  }

  /** The fields behind the size table. */
  function Fields(r: Request): seq<seq<byte>>
  {
    match r
    case Cmac(key, keysize, length, buff, resultName) =>
      [key, Num(keysize), Num(length), buff, Digits0(16), CString(resultName)]
    case Cbc(key, keysize, length, buff, resultName) =>
      [key, Num(keysize), Num(length), buff, Digits0(length), CString(resultName)]
    case Rsa(fileName, keysize, length, buff, pkh, mont, resultName) =>
      [CString(fileName), Num(length), buff, Digits0(keysize), OptField(pkh), OptField(mont), CString(resultName)]
    case Ecc(fileName, keysize, length, buff, pkh, resultName) =>
      [CString(fileName), Num(length), buff, Digits0(keysize), OptField(pkh), CString(resultName)]
    case Ed(fileName, keysize, length, buff, pkh, resultName) =>
      [CString(fileName), Num(length), buff, Digits0(keysize), OptField(pkh), CString(resultName)]
    case Sha(buff, hashName) =>
      [Num(|buff|), buff, Digits0(32), CString(hashName)]
  }

  /** The field for the result, and the size it must have. */
  function ResultField(r: Request): (nat, nat)
  {
    match r
    case Cmac(_, _, _, _, _) => (4, 16)
    case Cbc(_, _, length, _, _) => (4, length)
    case Rsa(_, keysize, _, _, _, _, _) => (3, keysize)
    case Ecc(_, keysize, _, _, _, _) => (3, keysize)
    case Ed(_, keysize, _, _, _, _) => (3, keysize)
    case Sha(_, _) => (2, 32)
  }

  /** The result's field is filled with the digit 0. */
  lemma ResultIsBlank(r: Request)
    ensures var (at, size) := ResultField(r);
      && at < |Fields(r)| && |Fields(r)[at]| == size
      && forall i | 0 <= i < size :: Fields(r)[at][i] == '0' as int
  {
    hide Num;
    hide CString;
    hide OptField;
    DigitsAre(ResultField(r).1);
  }

  lemma DigitsAre(n: nat)
    ensures forall i | 0 <= i < n :: Digits0(n)[i] == '0' as int
  {
  }

  /** The numbers that the functions compute for the size table: names are counted in characters. */
  function Sizes(r: Request): seq<nat>
  {
    match r
    case Cmac(key, keysize, length, buff, resultName) =>
      [|key|, ByteCnt(keysize), ByteCnt(length), |buff|, 16, |resultName| + 1]
    case Cbc(key, keysize, length, buff, resultName) =>
      [|key|, ByteCnt(keysize), ByteCnt(length), |buff|, length, |resultName| + 1]
    case Rsa(fileName, keysize, length, buff, pkh, mont, resultName) =>
      [|fileName| + 1, ByteCnt(length), |buff|, keysize, OptSize(pkh), OptSize(mont), |resultName| + 1]
    case Ecc(fileName, keysize, length, buff, pkh, resultName) =>
      [|fileName| + 1, ByteCnt(length), |buff|, keysize, OptSize(pkh), |resultName| + 1]
    case Ed(fileName, keysize, length, buff, pkh, resultName) =>
      [|fileName| + 1, ByteCnt(length), |buff|, keysize, OptSize(pkh), |resultName| + 1]
    case Sha(buff, hashName) =>
      [ByteCnt(|buff|), |buff|, 32, |hashName| + 1]
  }

  /** A file after writing the pieces one behind the other. */
  function WriteAll(start: seq<byte>, pieces: seq<seq<byte>>): seq<byte>
  {
    if pieces == [] then start else WriteAll(start, pieces[..|pieces| - 1]) + pieces[|pieces| - 1]
  }

  function SizePieces(sizes: seq<nat>): (p: seq<seq<byte>>)
    ensures |p| == |sizes|
  {
    seq(|sizes|, i requires 0 <= i < |sizes| => Le(4, sizes[i]))
  }

  /** The pieces of a frame: the sizes, then the fields. */
  function Pieces(r: Request): (p: seq<seq<byte>>)
    ensures |p| == |Sizes(r)| + |Fields(r)|
    ensures forall i | 0 <= i < |Sizes(r)| :: p[i] == Le(4, Sizes(r)[i])
    ensures forall i | |Sizes(r)| <= i < |p| :: p[i] == Fields(r)[i - |Sizes(r)|]
  {
    SizePieces(Sizes(r)) + Fields(r)
  }

  function Frame(r: Request): seq<byte>
  {
    WriteAll([], Pieces(r))
  }

  // ----- the writers

  /** The file a writer fills, next to the pieces that are to go into it. */
  class RawFile {
    var content: seq<byte>
    ghost const plan: seq<seq<byte>>
    ghost var done: nat

    ghost predicate Valid()
      reads this
    {
      done <= |plan| && content == WriteAll([], plan[..done])
    }

    constructor (ghost plan: seq<seq<byte>>)
      ensures Valid() && this.plan == plan && done == 0
    {
      this.plan := plan;
      content, done := [], 0;
    }

    lemma Complete()
      requires Valid() && done == |plan|
      ensures content == WriteAll([], plan)
    {
      assert plan[..done] == plan;
    }

    method Write(data: seq<byte>)
      requires Valid() && done < |plan| && plan[done] == data
      modifies this
      ensures Valid() && done == old(done) + 1
    {
      content := content + data;
      assert plan[..done + 1][..done] == plan[..done];
      done := done + 1;
    }

    /** arr = int_2bytes(n, val); write_file(raw_file, arr) */
    method WriteInt(n: nat, val: nat)
      requires Valid() && n >= 1 && done < |plan| && plan[done] == Le(n, val)
      modifies this
      ensures Valid() && done == old(done) + 1
    {
      var arr := Int2Bytes(n, val);
      Write(arr.value);
    }

    /** A number in the number of bytes computed for it. */
    method WriteNum(n: nat, v: nat)
      requires Valid() && n == ByteCnt(v) && done < |plan| && plan[done] == Num(v)
      modifies this
      ensures Valid() && done == old(done) + 1
    {
      WriteInt(n, v);
    }

    /** A name and its terminating NUL. */
    method WriteName(name: string)
      requires Valid() && done < |plan| && plan[done] == CString(name)
      modifies this
      ensures Valid() && done == old(done) + 1
    {
      Associate(content, Utf8Of(name), NUL);
      content := content + Utf8Of(name);
      content := content + NUL;
      assert plan[..done + 1][..done] == plan[..done];
      done := done + 1;
    }

    /** An optional name is written only when its computed size is positive. */
    method WriteOptional(name: Option<string>, size: nat)
      requires Valid() && size == OptSize(name) && done < |plan| && plan[done] == OptField(name)
      modifies this
      ensures Valid() && done == old(done) + 1
    {
      if size > 0 {
        WriteName(name.value);
      } else {
        assert plan[..done + 1][..done] == plan[..done];
        done := done + 1;
      }
    }
  }

  /** do_aes_cmac */
  method DoAesCmac(key: seq<byte>, keysize: nat, length: nat, buff: seq<byte>, resultName: string)
      returns (raw: RawFile)
    ensures fresh(raw) && raw.content == Frame(Cmac(key, keysize, length, buff, resultName))
  {
    hide Le;
    hide WriteAll;
    hide Pieces;
    hide RawFile.Valid;
    hide Utf8Of;
    hide CString;
    hide Num;
    hide Digits0;
    hide ByteCnt;
    hide IsByteCount;
    raw := new RawFile(Pieces(Cmac(key, keysize, length, buff, resultName)));
    var keysizeBytes := Int2ByteCnt(keysize);
    var lenBytes := Int2ByteCnt(length);
    raw.WriteInt(4, |key|);
    raw.WriteInt(4, keysizeBytes);
    raw.WriteInt(4, lenBytes);
    raw.WriteInt(4, |buff|);
    raw.WriteInt(4, 16);
    raw.WriteInt(4, |resultName| + 1);
    raw.Write(key);
    raw.WriteNum(keysizeBytes, keysize);
    raw.WriteNum(lenBytes, length);
    raw.Write(buff);
    raw.Write(Digits0(16));
    raw.WriteName(resultName);
    raw.Complete();
  }

  /** do_aes_cbc */
  method DoAesCbc(key: seq<byte>, keysize: nat, length: nat, buff: seq<byte>, resultName: string)
      returns (raw: RawFile)
    ensures fresh(raw) && raw.content == Frame(Cbc(key, keysize, length, buff, resultName))
  {
    hide Le;
    hide WriteAll;
    hide Pieces;
    hide RawFile.Valid;
    hide Utf8Of;
    hide CString;
    hide Num;
    hide Digits0;
    hide ByteCnt;
    hide IsByteCount;
    raw := new RawFile(Pieces(Cbc(key, keysize, length, buff, resultName)));
    var keysizeBytes := Int2ByteCnt(keysize);
    var lenBytes := Int2ByteCnt(length);
    var dest := Digits0(length);
    raw.WriteInt(4, |key|);
    raw.WriteInt(4, keysizeBytes);
    raw.WriteInt(4, lenBytes);
    raw.WriteInt(4, |buff|);
    raw.WriteInt(4, length);
    raw.WriteInt(4, |resultName| + 1);
    raw.Write(key);
    raw.WriteNum(keysizeBytes, keysize);
    raw.WriteNum(lenBytes, length);
    raw.Write(buff);
    raw.Write(dest);
    raw.WriteName(resultName);
    raw.Complete();
  }

  /** do_rsa_pss */
  method DoRsaPss(fileName: string, keysize: nat, length: nat, buff: seq<byte>, pkh: Option<string>,
                  mont: Option<string>, resultName: string) returns (raw: RawFile)
    ensures fresh(raw) && raw.content == Frame(Rsa(fileName, keysize, length, buff, pkh, mont, resultName))
  {
    hide Le;
    hide WriteAll;
    hide Pieces;
    hide RawFile.Valid;
    hide Utf8Of;
    hide CString;
    hide Num;
    hide Digits0;
    hide ByteCnt;
    hide IsByteCount;
    hide OptField;
    raw := new RawFile(Pieces(Rsa(fileName, keysize, length, buff, pkh, mont, resultName)));
    var sig := Digits0(keysize);
    var lenBytes := Int2ByteCnt(length);
    var pkhBytes := if pkh == None then 0 else |pkh.value| + 1;
    var montBytes := if mont == None then 0 else |mont.value| + 1;
    raw.WriteInt(4, |fileName| + 1);
    raw.WriteInt(4, lenBytes);
    raw.WriteInt(4, |buff|);
    raw.WriteInt(4, |sig|);
    raw.WriteInt(4, pkhBytes);
    raw.WriteInt(4, montBytes);
    raw.WriteInt(4, |resultName| + 1);
    raw.WriteName(fileName);
    raw.WriteNum(lenBytes, length);
    raw.Write(buff);
    raw.Write(sig);
    raw.WriteOptional(pkh, pkhBytes);
    raw.WriteOptional(mont, montBytes);
    raw.WriteName(resultName);
    raw.Complete();
  }

  /** do_ecc */
  method DoEcc(fileName: string, keysize: nat, length: nat, buff: seq<byte>, pkh: Option<string>, resultName: string)
      returns (raw: RawFile)
    ensures fresh(raw) && raw.content == Frame(Ecc(fileName, keysize, length, buff, pkh, resultName))
  {
    hide Le;
    hide WriteAll;
    hide Pieces;
    hide RawFile.Valid;
    hide Utf8Of;
    hide CString;
    hide Num;
    hide Digits0;
    hide ByteCnt;
    hide IsByteCount;
    hide OptField;
    raw := new RawFile(Pieces(Ecc(fileName, keysize, length, buff, pkh, resultName)));
    var sig := Digits0(keysize);
    var lenBytes := Int2ByteCnt(length);
    var pkhBytes := if pkh == None then 0 else |pkh.value| + 1;
    raw.WriteInt(4, |fileName| + 1);
    raw.WriteInt(4, lenBytes);
    raw.WriteInt(4, |buff|);
    raw.WriteInt(4, |sig|);
    raw.WriteInt(4, pkhBytes);
    raw.WriteInt(4, |resultName| + 1);
    raw.WriteName(fileName);
    raw.WriteNum(lenBytes, length);
    raw.Write(buff);
    raw.Write(sig);
    raw.WriteOptional(pkh, pkhBytes);
    raw.WriteName(resultName);
    raw.Complete();
  }

  /** do_ed25519: the same sequence of writes as do_ecc. */
  method DoEd25519(fileName: string, keysize: nat, length: nat, buff: seq<byte>, pkh: Option<string>,
                   resultName: string) returns (raw: RawFile)
    ensures fresh(raw) && raw.content == Frame(Ed(fileName, keysize, length, buff, pkh, resultName))
  {
    hide Le;
    hide WriteAll;
    hide Pieces;
    hide RawFile.Valid;
    hide Utf8Of;
    hide CString;
    hide Num;
    hide Digits0;
    hide ByteCnt;
    hide IsByteCount;
    hide OptField;
    raw := new RawFile(Pieces(Ed(fileName, keysize, length, buff, pkh, resultName)));
    var sig := Digits0(keysize);
    var lenBytes := Int2ByteCnt(length);
    var pkhBytes := if pkh == None then 0 else |pkh.value| + 1;
    raw.WriteInt(4, |fileName| + 1);
    raw.WriteInt(4, lenBytes);
    raw.WriteInt(4, |buff|);
    raw.WriteInt(4, |sig|);
    raw.WriteInt(4, pkhBytes);
    raw.WriteInt(4, |resultName| + 1);
    raw.WriteName(fileName);
    raw.WriteNum(lenBytes, length);
    raw.Write(buff);
    raw.Write(sig);
    raw.WriteOptional(pkh, pkhBytes);
    raw.WriteName(resultName);
    raw.Complete();
  }

  /** do_sha256, for the window buff of the file. */
  method DoSha256(buff: seq<byte>, hashName: string) returns (raw: RawFile)
    ensures fresh(raw) && raw.content == Frame(Sha(buff, hashName))
  {
    hide Le;
    hide WriteAll;
    hide Pieces;
    hide RawFile.Valid;
    hide Utf8Of;
    hide CString;
    hide Num;
    hide Digits0;
    hide ByteCnt;
    hide IsByteCount;
    raw := new RawFile(Pieces(Sha(buff, hashName)));
    var length := |buff|;
    var lenBytes := Int2ByteCnt(length);
    raw.WriteInt(4, lenBytes);
    raw.WriteInt(4, length);
    raw.WriteInt(4, 256 / 8);
    raw.WriteInt(4, |hashName| + 1);
    raw.WriteNum(lenBytes, length);
    raw.Write(buff);
    raw.Write(Digits0(32));
    raw.WriteName(hashName);
    raw.Complete();
  }

  // ----- frames describe themselves

  function Lengths(fields: seq<seq<byte>>): (r: seq<nat>)
    ensures |r| == |fields|
  {
    seq(|fields|, i requires 0 <= i < |fields| => |fields[i]|)
  }

  /** The names in a request. */
  function Names(r: Request): seq<string>
  {
    match r
    case Cmac(_, _, _, _, resultName) => [resultName]
    case Cbc(_, _, _, _, resultName) => [resultName]
    case Rsa(fileName, _, _, _, pkh, mont, resultName) => [fileName, OptName(pkh), OptName(mont), resultName]
    case Ecc(fileName, _, _, _, pkh, resultName) => [fileName, OptName(pkh), resultName]
    case Ed(fileName, _, _, _, pkh, resultName) => [fileName, OptName(pkh), resultName]
    case Sha(_, hashName) => [hashName]
  }

  function OptName(name: Option<string>): string
  {
    match name
    case None => ""
    case Some(s) => s
  }

  ghost predicate AllAscii(names: seq<string>)
  {
    forall i | 0 <= i < |names| :: AsciiText(names[i])
  }

  lemma CStringSize(name: string)
    ensures |CString(name)| == |name| + 1 <==> AsciiText(name)
  {
    Utf8Length(name);
  }

  lemma OptFieldSize(name: Option<string>)
    ensures |OptField(name)| == OptSize(name) <==> AsciiText(OptName(name))
  {
    if name.Some? {
      CStringSize(name.value);
    }
  }

  /** Lists of equal length are equal when they agree everywhere; asked here at the places of the names. */
  lemma AgreeAt(sizes: seq<nat>, lengths: seq<nat>, at: seq<nat>)
    requires |sizes| == |lengths| && forall j | 0 <= j < |at| :: at[j] < |sizes|
    requires forall i | 0 <= i < |sizes| && i !in at :: sizes[i] == lengths[i]
    ensures sizes == lengths <==> forall j | 0 <= j < |at| :: sizes[at[j]] == lengths[at[j]]
  {
    if forall j | 0 <= j < |at| :: sizes[at[j]] == lengths[at[j]] {
      forall i | 0 <= i < |sizes|
        ensures sizes[i] == lengths[i]
      {
        if i in at {
          var j :| 0 <= j < |at| && at[j] == i;
          assert sizes[at[j]] == lengths[at[j]];
        }
      }
    }
  }

  lemma NameSizes(names: seq<string>, sizes: seq<nat>, lengths: seq<nat>, at: seq<nat>)
    requires |at| == |names| && |sizes| == |lengths| && forall j | 0 <= j < |at| :: at[j] < |sizes|
    requires forall i | 0 <= i < |sizes| && i !in at :: sizes[i] == lengths[i]
    requires forall j | 0 <= j < |at| :: sizes[at[j]] == lengths[at[j]] <==> AsciiText(names[j])
    ensures sizes == lengths <==> AllAscii(names)
  {
    hide AsciiText;
    AgreeAt(sizes, lengths, at);
  }

  /** The places of the names among the fields. */
  function NamePlaces(r: Request): seq<nat>
  {
    match r
    case Cmac(_, _, _, _, _) => [5]
    case Cbc(_, _, _, _, _) => [5]
    case Rsa(_, _, _, _, _, _, _) => [0, 4, 5, 6]
    case Ecc(_, _, _, _, _, _) => [0, 4, 5]
    case Ed(_, _, _, _, _, _) => [0, 4, 5]
    case Sha(_, _) => [3]
  }

  /** The numbers for the size table, before they are cut to four bytes, are right exactly when all names are ASCII. */
  lemma SizesDescribeFields(r: Request)
    ensures |Sizes(r)| == |Fields(r)|
    ensures Sizes(r) == Lengths(Fields(r)) <==> AllAscii(Names(r))
  {
    hide Sizes;
    hide Fields;
    hide Names;
    hide NamePlaces;
    hide AllAscii;
    hide AsciiText;
    NumSizes(r);
    NamesAt(r);
    var at, sizes, lengths := NamePlaces(r), Sizes(r), Lengths(Fields(r));
    forall j | 0 <= j < |at|
      ensures at[j] < |sizes| && (sizes[at[j]] == lengths[at[j]] <==> AsciiText(Names(r)[j]))
    {
      assert NameFits(r, j);
    }
    NameSizes(Names(r), sizes, lengths, at);
  }

  /** The size entered for the j-th name is right exactly when the name is ASCII. */
  ghost predicate NameFits(r: Request, j: nat)
    requires j < |NamePlaces(r)| == |Names(r)|
  {
    var i := NamePlaces(r)[j];
    i < |Sizes(r)| == |Fields(r)| && (Sizes(r)[i] == |Fields(r)[i]| <==> AsciiText(Names(r)[j]))
  }

  lemma OneNameAt(r: Request)
    requires r.Cmac? || r.Cbc? || r.Sha?
    ensures |NamePlaces(r)| == |Names(r)| == 1 && NameFits(r, 0)
  {
    hide CString;
    hide Num;
    hide AsciiText;
    CStringSize(Names(r)[0]);
  }

  lemma KeyNamesAt(r: Request)
    requires r.Ecc? || r.Ed?
    ensures |NamePlaces(r)| == |Names(r)| == 3 && NameFits(r, 0) && NameFits(r, 1) && NameFits(r, 2)
  {
    hide CString;
    hide OptField;
    hide Num;
    hide AsciiText;
    hide OptSize;
    hide OptName;
    CStringSize(r.fileName);
    OptFieldSize(r.pkh);
    CStringSize(r.resultName);
  }

  lemma RsaNamesAt(r: Request)
    requires r.Rsa?
    ensures |NamePlaces(r)| == |Names(r)| == 4
    ensures NameFits(r, 0) && NameFits(r, 1) && NameFits(r, 2) && NameFits(r, 3)
  {
    hide CString;
    hide OptField;
    hide Num;
    hide AsciiText;
    hide OptSize;
    hide OptName;
    CStringSize(r.fileName);
    OptFieldSize(r.pkh);
    OptFieldSize(r.mont);
    CStringSize(r.resultName);
  }

  lemma NamesAt(r: Request)
    ensures |NamePlaces(r)| == |Names(r)| && forall j | 0 <= j < |Names(r)| :: NameFits(r, j)
  {
    hide NameFits;
    hide NamePlaces;
    hide Names;
    if r.Rsa? {
      RsaNamesAt(r);
    } else if r.Ecc? || r.Ed? {
      KeyNamesAt(r);
    } else {
      OneNameAt(r);
    }
  }

  lemma NumSizes(r: Request)
    ensures |Sizes(r)| == |Fields(r)|
    ensures forall i | 0 <= i < |Sizes(r)| && i !in NamePlaces(r) :: Sizes(r)[i] == |Fields(r)[i]|
  {
    hide CString;
    hide OptField;
    hide OptSize;
    hide ByteCnt;
  }

  // ----- reading a frame back

  function ReadSizes(b: seq<byte>, n: nat): (r: seq<nat>)
    requires |b| >= 4 * n
    ensures |r| == n
  {
    seq(n, i requires 0 <= i < n => LeValue(b[4 * i..4 * i + 4]))
  }

  /** Cuts b into consecutive pieces of the given sizes, using it up exactly. */
  function Cut(b: seq<byte>, sizes: seq<nat>): Option<seq<seq<byte>>>
  {
    if sizes == [] then (if b == [] then Some([]) else None)
    else if |b| < sizes[0] then None
    else match Cut(b[sizes[0]..], sizes[1..])
      case None => None
      case Some(rest) => Some([b[..sizes[0]]] + rest)
  }

  /** Reads n sizes and then cuts: the only knowledge of the sender it uses is the number of fields. */
  function CutFrame(b: seq<byte>, n: nat): Option<seq<seq<byte>>>
  {
    if |b| < 4 * n then None else Cut(b[4 * n..], ReadSizes(b, n))
  }

  function FieldCount(kind: Kind): nat
  {
    if kind == RsaKind then 7 else if kind == ShaKind then 4 else 6
  }

  function NameOf(field: seq<byte>): string
  {
    if field == [] then "" else Chars(field[..|field| - 1])
  }

  function OptOf(field: seq<byte>): Option<string>
  {
    if field == [] then None else Some(NameOf(field))
  }

  function FromFields(kind: Kind, f: seq<seq<byte>>): Request
    requires |f| == FieldCount(kind)
  {
    match kind
    case CmacKind => Cmac(f[0], LeValue(f[1]), LeValue(f[2]), f[3], NameOf(f[5]))
    case CbcKind => Cbc(f[0], LeValue(f[1]), LeValue(f[2]), f[3], NameOf(f[5]))
    case RsaKind => Rsa(NameOf(f[0]), |f[3]|, LeValue(f[1]), f[2], OptOf(f[4]), OptOf(f[5]), NameOf(f[6]))
    case EccKind => Ecc(NameOf(f[0]), |f[3]|, LeValue(f[1]), f[2], OptOf(f[4]), NameOf(f[5]))
    case EdKind => Ed(NameOf(f[0]), |f[3]|, LeValue(f[1]), f[2], OptOf(f[4]), NameOf(f[5]))
    case ShaKind => Sha(f[1], NameOf(f[3]))
  }

  function Decode(kind: Kind, b: seq<byte>): Option<Request>
  {
    match CutFrame(b, FieldCount(kind))
    case None => None
    case Some(f) => if |f| == FieldCount(kind) then Some(FromFields(kind, f)) else None
  }

  lemma {:induction false} WriteAllAfter(start: seq<byte>, pieces: seq<seq<byte>>)
    ensures WriteAll(start, pieces) == start + WriteAll([], pieces)
  {
    if pieces != [] {
      var n := |pieces| - 1;
      WriteAllAfter(start, pieces[..n]);
      Associate(start, WriteAll([], pieces[..n]), pieces[n]);
    }
  }

  lemma Associate<T>(a: seq<T>, b: seq<T>, c: seq<T>)
    ensures a + b + c == a + (b + c)
  {
  }

  lemma {:induction false} WriteAllBoth(start: seq<byte>, a: seq<seq<byte>>, b: seq<seq<byte>>)
    ensures WriteAll(start, a + b) == WriteAll(WriteAll(start, a), b)
  {
    if b == [] {
      assert a + b == a;
    } else {
      var n := |b| - 1;
      WriteAllBoth(start, a, b[..n]);
      assert (a + b)[..|a + b| - 1] == a + b[..n];
    }
  }

  lemma {:induction false} WriteAllFront(p: seq<byte>, rest: seq<seq<byte>>)
    ensures WriteAll([], [p] + rest) == p + WriteAll([], rest)
  {
    var all := [p] + rest;
    if rest == [] {
      assert all == [p] && all[..0] == [];
    } else {
      var n := |rest| - 1;
      assert all[..|all| - 1] == [p] + rest[..n];
      WriteAllFront(p, rest[..n]);
      Associate(p, WriteAll([], rest[..n]), rest[n]);
    }
  }

  lemma {:induction false} CutWritten(fields: seq<seq<byte>>)
    ensures Cut(WriteAll([], fields), Lengths(fields)) == Some(fields)
  {
    hide WriteAll;
    if fields == [] {
      NothingWritten();
    } else {
      var p, rest := fields[0], fields[1..];
      assert fields == [p] + rest;
      WriteAllFront(p, rest);
      CutWritten(rest);
      var b := WriteAll([], fields);
      assert b[..|p|] == p && b[|p|..] == WriteAll([], rest);
      assert Lengths(fields)[1..] == Lengths(rest);
    }
  }

  lemma NothingWritten()
    ensures WriteAll([], []) == []
  {
  }

  lemma {:induction false} SizeTableLength(sizes: seq<nat>)
    ensures |WriteAll([], SizePieces(sizes))| == 4 * |sizes|
  {
    hide Le;
    if sizes != [] {
      var n := |sizes| - 1;
      SizeTableLength(sizes[..n]);
      assert SizePieces(sizes)[..n] == SizePieces(sizes[..n]);
    }
  }

  lemma {:induction false} SizeTableAt(sizes: seq<nat>, i: nat)
    requires i < |sizes|
    ensures |WriteAll([], SizePieces(sizes))| == 4 * |sizes|
    ensures WriteAll([], SizePieces(sizes))[4 * i..4 * i + 4] == Le(4, sizes[i])
  {
    hide Le;
    var n := |sizes| - 1;
    var t, init := WriteAll([], SizePieces(sizes)), WriteAll([], SizePieces(sizes[..n]));
    SizeTableLength(sizes);
    SizeTableLength(sizes[..n]);
    assert SizePieces(sizes)[..n] == SizePieces(sizes[..n]);
    assert t == init + Le(4, sizes[n]);
    if i < n {
      SizeTableAt(sizes[..n], i);
      assert t[4 * i..4 * i + 4] == init[4 * i..4 * i + 4];
    }
  }

  ghost predicate SizesFit(r: Request)
  {
    forall i | 0 <= i < |Sizes(r)| :: Sizes(r)[i] < WORD
  }

  /** The table as a reader finds it: every size is cut down to four bytes. */
  lemma TableReads(sizes: seq<nat>, rest: seq<byte>)
    ensures var b := WriteAll([], SizePieces(sizes)) + rest;
      && |b| >= 4 * |sizes| && b[4 * |sizes|..] == rest
      && forall i | 0 <= i < |sizes| :: ReadSizes(b, |sizes|)[i] == sizes[i] % WORD
  {
    hide Le;
    hide LeValue;
    hide WriteAll;
    hide SizePieces;
    var t := WriteAll([], SizePieces(sizes));
    var b := t + rest;
    SizeTableLength(sizes);
    forall i | 0 <= i < |sizes|
      ensures LeValue(b[4 * i..4 * i + 4]) == sizes[i] % WORD
    {
      SizeTableAt(sizes, i);
      assert b[4 * i..4 * i + 4] == t[4 * i..4 * i + 4];
      LeRoundTrip(4, sizes[i]);
      Pow256Four();
    }
  }

  /** The frame is its table with the fields behind it. */
  lemma FrameParts(r: Request)
    ensures |Sizes(r)| == |Fields(r)|
    ensures var b, n := Frame(r), |Fields(r)|;
      && |b| >= 4 * n && b[4 * n..] == WriteAll([], Fields(r))
      && forall i | 0 <= i < n :: ReadSizes(b, n)[i] == Sizes(r)[i] % WORD
  {
    hide WriteAll;
    hide SizePieces;
    hide ReadSizes;
    hide Sizes;
    hide Fields;
    SizesDescribeFields(r);
    assert Pieces(r) == SizePieces(Sizes(r)) + Fields(r);
    WriteAllBoth([], SizePieces(Sizes(r)), Fields(r));
    WriteAllAfter(WriteAll([], SizePieces(Sizes(r))), Fields(r));
    TableReads(Sizes(r), WriteAll([], Fields(r)));
  }

  /** A name takes at least one byte for each character. */
  lemma SizesAreLow(r: Request)
    ensures |Sizes(r)| == |Fields(r)| && forall i | 0 <= i < |Sizes(r)| :: Sizes(r)[i] <= |Fields(r)[i]|
  {
    hide Num;
    hide Digits0;
    hide ByteCnt;
    forall name: string
      ensures |CString(name)| >= |name| + 1
    {
      Utf8Length(name);
    }
  }

  /**
   * The table in the file tells the lengths of the fields exactly when all names are ASCII and every
   * size fits into four bytes.
   */
  lemma TableExact(r: Request)
    ensures |Frame(r)| >= 4 * |Fields(r)|
    ensures ReadSizes(Frame(r), |Fields(r)|) == Lengths(Fields(r)) <==> AllAscii(Names(r)) && SizesFit(r)
  {
    hide Frame;
    hide Sizes;
    hide Fields;
    hide Names;
    hide ReadSizes;
    FrameParts(r);
    SizesDescribeFields(r);
    SizesAreLow(r);
    var table, lengths := ReadSizes(Frame(r), |Fields(r)|), Lengths(Fields(r));
    if table == lengths {
      forall i | 0 <= i < |Fields(r)|
        ensures Sizes(r)[i] == lengths[i] < WORD
      {
        ModIsLow(Sizes(r)[i], |Fields(r)[i]|);
      }
      assert Sizes(r) == lengths;
    }
  }

  lemma ModIsLow(size: nat, length: nat)
    requires size <= length && size % WORD == length
    ensures size == length < WORD
  {
  }

  /** A buffer of 4 GB gets the size 0, whatever the name. */
  lemma LargeBufferWraps(buff: seq<byte>, hashName: string)
    requires |buff| == WORD
    ensures |Frame(Sha(buff, hashName))| >= 16 && ReadSizes(Frame(Sha(buff, hashName)), 4)[1] == 0
  {
    hide Frame;
    hide ReadSizes;
    FrameParts(Sha(buff, hashName));
  }

  function Sum(sizes: seq<nat>): nat
  {
    if sizes == [] then 0 else sizes[0] + Sum(sizes[1..])
  }

  lemma {:induction false} CutUsesAll(b: seq<byte>, sizes: seq<nat>)
    ensures Cut(b, sizes).Some? ==> Sum(sizes) == |b|
    decreases |sizes|
  {
    if sizes != [] && |b| >= sizes[0] {
      CutUsesAll(b[sizes[0]..], sizes[1..]);
    }
  }

  lemma {:induction false} SumsDiffer(low: seq<nat>, high: seq<nat>)
    requires |low| == |high| && forall i | 0 <= i < |low| :: low[i] <= high[i]
    ensures Sum(low) <= Sum(high) && (Sum(low) == Sum(high) ==> low == high)
  {
    if low != [] {
      SumsDiffer(low[1..], high[1..]);
      assert low == [low[0]] + low[1..] && high == [high[0]] + high[1..];
    }
  }

  /** Sizes that are nowhere too large cut the fields only if they are all right. */
  lemma CutOnlyExactly(fields: seq<seq<byte>>, sizes: seq<nat>)
    requires |sizes| == |fields| && forall i | 0 <= i < |sizes| :: sizes[i] <= |fields[i]|
    ensures Cut(WriteAll([], fields), sizes) == if sizes == Lengths(fields) then Some(fields) else None
  {
    hide Cut;
    hide Sum;
    var b := WriteAll([], fields);
    CutWritten(fields);
    CutUsesAll(b, sizes);
    CutUsesAll(b, Lengths(fields));
    SumsDiffer(sizes, Lengths(fields));
  }

  /**
   * Frames describe themselves exactly when all names are ASCII and every size fits into four bytes:
   * then cutting by the size table gives the fields, and otherwise the table does not use up the file.
   */
  lemma FrameCuts(r: Request)
    ensures CutFrame(Frame(r), |Fields(r)|) == if AllAscii(Names(r)) && SizesFit(r) then Some(Fields(r)) else None
  {
    hide Frame;
    hide WriteAll;
    hide ReadSizes;
    hide SizesFit;
    hide Fields;
    hide Sizes;
    hide Names;
    hide Cut;
    FrameParts(r);
    TableExact(r);
    SizesAreLow(r);
    var table := ReadSizes(Frame(r), |Fields(r)|);
    forall i | 0 <= i < |table|
      ensures table[i] <= |Fields(r)[i]|
    {
      ModLowers(Sizes(r)[i]);
    }
    CutOnlyExactly(Fields(r), table);
  }

  lemma ModLowers(size: nat)
    ensures size % WORD <= size
  {
  }

  lemma NameReadsBack(name: string)
    requires AsciiText(name)
    ensures NameOf(CString(name)) == name && CString(name) != []
  {
    Utf8Length(name);
    EncodedChars(name);
    assert CString(name)[..|CString(name)| - 1] == Utf8Of(name);
  }

  lemma OptReadsBack(name: Option<string>)
    requires AsciiText(OptName(name))
    ensures OptOf(OptField(name)) == name
  {
    if name.Some? {
      NameReadsBack(name.value);
    }
  }

  lemma NumReadsBack(v: nat)
    ensures LeValue(Num(v)) == v
  {
    ByteCntLossless(v);
  }

  lemma FieldsReadBack(r: Request)
    requires AllAscii(Names(r))
    ensures |Fields(r)| == FieldCount(KindOf(r))
    ensures FromFields(KindOf(r), Fields(r)) == r
  {
    hide CString;
    hide OptField;
    hide NameOf;
    hide OptOf;
    hide Num;
    hide LeValue;
    hide AsciiText;
    hide OptName;
    var names := Names(r);
    match r {
      case Cmac(_, keysize, length, _, resultName) =>
        assert resultName == names[0];
        NumReadsBack(keysize);
        NumReadsBack(length);
        NameReadsBack(resultName);
      case Cbc(_, keysize, length, _, resultName) =>
        assert resultName == names[0];
        NumReadsBack(keysize);
        NumReadsBack(length);
        NameReadsBack(resultName);
      case Rsa(fileName, _, length, _, pkh, mont, resultName) =>
        assert fileName == names[0] && OptName(pkh) == names[1] && OptName(mont) == names[2] && resultName == names[3];
        NameReadsBack(fileName);
        NumReadsBack(length);
        OptReadsBack(pkh);
        OptReadsBack(mont);
        NameReadsBack(resultName);
      case Ecc(fileName, _, length, _, pkh, resultName) =>
        assert fileName == names[0] && OptName(pkh) == names[1] && resultName == names[2];
        NameReadsBack(fileName);
        NumReadsBack(length);
        OptReadsBack(pkh);
        NameReadsBack(resultName);
      case Ed(fileName, _, length, _, pkh, resultName) =>
        assert fileName == names[0] && OptName(pkh) == names[1] && resultName == names[2];
        NameReadsBack(fileName);
        NumReadsBack(length);
        OptReadsBack(pkh);
        NameReadsBack(resultName);
      case Sha(_, hashName) =>
        assert hashName == names[0];
        NameReadsBack(hashName);
    }
  }

  lemma FieldsCount(r: Request)
    ensures |Fields(r)| == FieldCount(KindOf(r))
  {
    hide CString;
    hide OptField;
    hide Num;
  }

  /**
   * A reader that knows only which function wrote the frame recovers every argument, including
   * whether the optional names were given, or finds that the size table is wrong: the latter exactly
   * when a name is not ASCII or a size does not fit.
   */
  lemma DecodeFrame(r: Request)
    ensures Decode(KindOf(r), Frame(r)) == if AllAscii(Names(r)) && SizesFit(r) then Some(r) else None
  {
    hide Frame;
    hide Fields;
    hide CutFrame;
    hide FromFields;
    hide SizesFit;
    hide Names;
    FieldsCount(r);
    FrameCuts(r);
    if AllAscii(Names(r)) && SizesFit(r) {
      FieldsReadBack(r);
    }
  }

  /** So a readable frame comes from one request only, of those one function can write. */
  lemma FramesInjective(r: Request, s: Request)
    requires AllAscii(Names(r)) && SizesFit(r)
    requires KindOf(r) == KindOf(s) && Frame(r) == Frame(s)
    ensures r == s
  {
    hide Frame;
    hide Decode;
    DecodeFrame(r);
    DecodeFrame(s);
  }
}
