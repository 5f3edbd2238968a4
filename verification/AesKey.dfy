/** extract_AES_key of tegrasign_v3_internal.py: raw keys and keys printed as hex text. */
module AesKey {
  import opened Options
  import opened Bytes
  import opened Text

  datatype Mode = Unknown | SBK | FSKP

  datatype Outcome = Extracted | NotAesKey | Raised

  /** The fields of a SignKey that the parser sets. */
  class SignKey {
    var mode: Mode
    var keysize: nat
    var aeskey: seq<byte>

    constructor ()
      ensures mode == Unknown && keysize == 16 && aeskey == Zeros(16)
    {
      mode, keysize, aeskey := Unknown, 16, Zeros(16);
    }
  }

  /** str.strip() removes these at both ends. */
  predicate IsSpace(c: char)
  {
    var v := c as int;
    || 9 <= v <= 13 || 28 <= v <= 32 || v == 0x85 || v == 0xa0 || v == 0x1680 || 0x2000 <= v <= 0x200a
    || v == 0x2028 || v == 0x2029 || v == 0x202f || v == 0x205f || v == 0x3000
  }

  function StripText(s: string): string
  {
    if s != [] && IsSpace(s[0]) then StripText(s[1..])
    else if s != [] && IsSpace(s[|s| - 1]) then StripText(s[..|s| - 1])
    else s
  }

  /** What str.strip() removes, by code point. */
  const SPACES: set<int> := {9, 10, 11, 12, 13, 28, 29, 30, 31, 32, 0x85, 0xa0, 0x1680, 0x2000, 0x2001, 0x2002,
                             0x2003, 0x2004, 0x2005, 0x2006, 0x2007, 0x2008, 0x2009, 0x200a, 0x2028, 0x2029,
                             0x202f, 0x205f, 0x3000}

  lemma SpaceIs(c: char)
    ensures IsSpace(c) <==> c as int in SPACES
  {
  }

  /** strip takes the white space away at both ends, and nothing else. */
  lemma {:induction false} StripTextIs(s: string) returns (lo: nat, hi: nat)
    ensures lo <= hi <= |s| && StripText(s) == s[lo..hi]
    ensures forall i | 0 <= i < |s| && !(lo <= i < hi) :: s[i] as int in SPACES
    ensures lo < hi ==> s[lo] as int !in SPACES && s[hi - 1] as int !in SPACES
    decreases |s|
  {
    hide IsSpace;
    if s != [] {
      SpaceIs(s[0]);
      SpaceIs(s[|s| - 1]);
    }
    if s != [] && IsSpace(s[0]) {
      var t := s[1..];
      lo, hi := StripTextIs(t);
      assert t[lo..hi] == s[lo + 1..hi + 1];
      assert forall i | 1 <= i < |s| :: s[i] == t[i - 1];
      lo, hi := lo + 1, hi + 1;
    } else if s != [] && IsSpace(s[|s| - 1]) {
      var t := s[..|s| - 1];
      lo, hi := StripTextIs(t);
      assert t[lo..hi] == s[lo..hi];
      assert forall i | 0 <= i < |t| :: s[i] == t[i];
    } else {
      lo, hi := 0, |s|;
      assert s == s[lo..hi];
    }
  }

  /** The value of a hex digit, upper or lower case. */
  function HexValue(c: char): Option<nat>
  {
    if '0' <= c <= '9' then Some(c as int - '0' as int)
    else if 'a' <= c <= 'f' then Some(c as int - 'a' as int + 10)
    else if 'A' <= c <= 'F' then Some(c as int - 'A' as int + 10)
    else None
  }

  predicate IsHexDigit(c: char)
  {
    HexValue(c).Some?
  }

  predicate AllHex(s: string)
  {
    forall c | c in s :: IsHexDigit(c)
  }

  /** binascii.unhexlify; None where it raises. */
  function Unhexlify(s: string): (r: Option<seq<byte>>)
    ensures r.Some? ==> |s| == 2 * |r.value|
  {
    if s == [] then Some([])
    else if |s| == 1 || !IsHexDigit(s[0]) || !IsHexDigit(s[1]) then None
    else match Unhexlify(s[2..])
      case None => None
      case Some(rest) => Some([16 * HexValue(s[0]).value + HexValue(s[1]).value] + rest)
  }

  const PREFIX: string := "0x"

  /** The elements of the text, split at blanks, each without its "0x". */
  function Cleaned(text: string): string
  {
    CleanEach(Split(ReplaceAll(text, "\n", " "), ' '))
  }

  function CleanEach(parts: seq<string>): string
  {
    if parts == [] then "" else ReplaceAll(parts[0], PREFIX, "") + CleanEach(parts[1..])
  }

  predicate IsAscii(b: seq<byte>)
  {
    forall i | 0 <= i < |b| :: b[i] < 128
  }

  /**
   * bytes.decode(), None where it raises. Known of it: ASCII decodes to itself, and no text has more
   * characters than bytes.
   */
  ghost predicate Decodes(decode: seq<byte> -> Option<string>)
  {
    && (forall b :: IsAscii(b) ==> decode(b) == Some(Chars(b)))
    && (forall b :: decode(b).Some? ==> |decode(b).value| <= |b|)
  }

  function Chars(b: seq<byte>): (s: string)
    ensures |s| == |b|
  {
    seq(|b|, i requires 0 <= i < |b| => b[i] as char)
  }

  /** What the parser makes of a buffer: the outcome, and the key it extracts. */
  function Parse(b: seq<byte>, decode: seq<byte> -> Option<string>): (Outcome, Mode, seq<byte>)
  {
    if 0x30 !in b && |b| == 16 then (Extracted, SBK, b)
    else if 0x30 !in b && |b| == 32 then (Extracted, FSKP, b)
    else match decode(b)
      case None => (Raised, Unknown, [])
      case Some(text) =>
        var keyStr := StripText(Cleaned(text));
        if |keyStr| != 32 && |keyStr| != 64 then (NotAesKey, Unknown, [])
        else match Unhexlify(keyStr)
          case None => (Raised, if |keyStr| == 32 then SBK else FSKP, [])
          case Some(key) => (Extracted, if |keyStr| == 32 then SBK else FSKP, key)
  }

  /** extract_AES_key. */
  method ExtractAesKey(b: seq<byte>, decode: seq<byte> -> Option<string>, key: SignKey) returns (outcome: Outcome)
    modifies key
    ensures outcome == Parse(b, decode).0
    ensures outcome == Extracted ==> key.mode == Parse(b, decode).1 && key.aeskey == Parse(b, decode).2
    ensures outcome == Extracted ==> key.keysize == |key.aeskey|
    ensures outcome == NotAesKey ==> unchanged(key)
    ensures outcome == Raised ==> unchanged(key`aeskey) && unchanged(key`keysize)
    ensures outcome == Raised ==> key.mode == if decode(b).None? then old(key.mode) else Parse(b, decode).1
  {
    hide StripText;
    hide Unhexlify;
    if 0x30 !in b {
      var byteCnt := |b|;
      if byteCnt == 16 {
        key.keysize := byteCnt;
        key.aeskey := b;
        key.mode := SBK;
        return Extracted;
      } else if byteCnt == 32 {
        key.keysize := byteCnt;
        key.aeskey := b;
        key.mode := FSKP;
        return Extracted;
      }
    }
    var text := decode(b);
    if text.None? {
      return Raised;
    }
    var elements := Split(ReplaceAll(text.value, "\n", " "), ' ');
    var keyStr := ReplaceAll(elements[0], PREFIX, "");
    for i := 1 to |elements|
      invariant keyStr + CleanEach(elements[i..]) == CleanEach(elements)
    {
      assert elements[i..][0] == elements[i] && elements[i..][1..] == elements[i + 1..];
      keyStr := keyStr + ReplaceAll(elements[i], PREFIX, "");
    }
    assert elements[|elements|..] == [] && keyStr + "" == keyStr;
    assert keyStr == Cleaned(text.value);
    var stripped := StripText(keyStr);
    if |stripped| == 32 {
      key.mode := SBK;
    } else if |stripped| == 64 {
      key.mode := FSKP;
    } else {
      return NotAesKey;
    }
    var bytes := Unhexlify(stripped);
    if bytes.None? {
      return Raised;
    }
    key.keysize := |stripped| / 2;
    key.aeskey := bytes.value;
    outcome := Extracted;
  }

  // ----- cleaning, character by character

  /** Blanks and line breaks go, and so does every "0x". */
  function Clean(s: string): (r: string)
    ensures |r| <= |s|
  {
    if s == [] then ""
    else if s[0] == ' ' || s[0] == '\n' then Clean(s[1..])
    else if |s| >= 2 && s[0] == '0' && s[1] == 'x' then Clean(s[2..])
    else [s[0]] + Clean(s[1..])
  }

  lemma CleanStep(s: string)
    requires s != []
    ensures Clean(s) == if s[0] == ' ' || s[0] == '\n' then Clean(s[1..])
                        else if |s| >= 2 && s[0] == '0' && s[1] == 'x' then Clean(s[2..])
                        else [s[0]] + Clean(s[1..])
  {
  }

  lemma {:induction false} CleanBlank(a: string, b: string)
    ensures Clean(a + [' '] + b) == Clean(a) + Clean(b)
    decreases |a|
  {
    hide Clean;
    var s := a + [' '] + b;
    CleanStep(s);
    if a == [] {
      assert s[1..] == b;
      CleanNothing();
    } else {
      CleanStep(a);
      assert s[0] == a[0] && s[1..] == a[1..] + [' '] + b;
      CleanBlank(a[1..], b);
      if |a| >= 2 {
        assert s[1] == a[1] && s[2..] == a[2..] + [' '] + b;
        CleanBlank(a[2..], b);
      } else {
        assert s[1] == ' ';
      }
    }
  }

  lemma {:induction false} CleanWord(s: string)
    requires ' ' !in s && '\n' !in s
    ensures Clean(s) == ReplaceAll(s, PREFIX, "")
    decreases |s|
  {
    if |s| >= 2 {
      assert s[..2] == [s[0], s[1]];
      if s[..2] == PREFIX {
        CleanWord(s[2..]);
      } else {
        CleanWord(s[1..]);
      }
    } else if |s| == 1 {
      assert s == [s[0]] && s[1..] == [];
    }
  }

  lemma {:induction false} CleanSplit(s: string)
    requires '\n' !in s
    ensures CleanEach(Split(s, ' ')) == Clean(s)
    decreases |s|
  {
    hide ReplaceAll;
    hide Clean;
    if ' ' !in s {
      CleanWord(s);
      assert [s][1..] == [];
    } else {
      var i := IndexOf(s, ' ');
      var a, b := s[..i], s[i + 1..];
      assert s == a + [' '] + b;
      CleanWord(a);
      CleanSplit(b);
      CleanBlank(a, b);
      var parts := Split(b, ' ');
      assert Split(s, ' ') == [a] + parts && ([a] + parts)[1..] == parts;
    }
  }

  /** Turning line breaks into blanks makes no difference to the cleaned text. */
  lemma {:induction false} CleanBreaks(s: string)
    ensures '\n' !in ReplaceAll(s, "\n", " ")
    ensures |ReplaceAll(s, "\n", " ")| == |s|
    ensures s != [] ==> ReplaceAll(s, "\n", " ")[0] == if s[0] == '\n' then ' ' else s[0]
    ensures s != [] ==> ReplaceAll(s, "\n", " ")[1..] == ReplaceAll(s[1..], "\n", " ")
    decreases |s|
  {
    if s != [] {
      CleanBreaks(s[1..]);
      assert s[..1] == [s[0]];
    }
  }

  lemma {:induction false} CleanOfBreaks(s: string)
    ensures Clean(ReplaceAll(s, "\n", " ")) == Clean(s)
    decreases |s|
  {
    hide ReplaceAll;
    var r := ReplaceAll(s, "\n", " ");
    CleanBreaks(s);
    if s != [] {
      var t := s[1..];
      CleanOfBreaks(t);
      CleanBreaks(t);
      if |s| >= 2 {
        assert r[1] == r[1..][0] && t[0] == s[1];
        if s[0] == '0' && s[1] == 'x' {
          CleanOfBreaks(s[2..]);
          assert t[1..] == s[2..] && r[2..] == r[1..][1..];
        }
      }
    }
  }

  lemma CleanedIs(text: string)
    ensures Cleaned(text) == Clean(text)
  {
    CleanBreaks(text);
    CleanSplit(ReplaceAll(text, "\n", " "));
    CleanOfBreaks(text);
  }

  // ----- the key text round trip

  predicate IsGap(s: string)
  {
    forall i | 0 <= i < |s| :: s[i] == ' ' || s[i] == '\n'
  }

  /** Groups of hex digits, each behind a "0x", with gaps of blanks and line breaks around them. */
  function Printed(groups: seq<string>, gaps: seq<string>): string
    requires |gaps| == |groups| + 1
  {
    if groups == [] then gaps[0] else gaps[0] + PREFIX + groups[0] + Printed(groups[1..], gaps[1..])
  }

  function Concat(groups: seq<string>): string
  {
    if groups == [] then "" else groups[0] + Concat(groups[1..])
  }

  lemma {:induction false} CleanGap(gap: string, rest: string)
    requires IsGap(gap)
    ensures Clean(gap + rest) == Clean(rest)
  {
    if gap == [] {
      assert gap + rest == rest;
    } else {
      assert (gap + rest)[1..] == gap[1..] + rest;
      CleanGap(gap[1..], rest);
    }
  }

  lemma {:induction false} CleanDigits(g: string, rest: string)
    requires AllHex(g) && (rest == "" || rest[0] != 'x')
    ensures Clean(g + rest) == g + Clean(rest)
  {
    hide Clean;
    var s := g + rest;
    if g == [] {
      assert s == rest;
    } else {
      CleanStep(s);
      assert IsHexDigit(g[0]);
      assert s[1..] == g[1..] + rest;
      if |g| >= 2 {
        assert IsHexDigit(g[1]) && s[1] == g[1];
      }
      CleanDigits(g[1..], rest);
    }
  }

  lemma PrintedFirst(groups: seq<string>, gaps: seq<string>)
    requires |gaps| == |groups| + 1 && IsGap(gaps[0])
    ensures var p := Printed(groups, gaps); p == "" || p[0] == ' ' || p[0] == '\n' || p[0] == '0'
  {
    if groups != [] && gaps[0] == "" {
      assert Printed(groups, gaps)[0] == PREFIX[0];
    }
  }

  lemma {:induction false} CleanPrinted(groups: seq<string>, gaps: seq<string>)
    requires |gaps| == |groups| + 1
    requires (forall g | g in groups :: AllHex(g)) && (forall s | s in gaps :: IsGap(s))
    ensures Clean(Printed(groups, gaps)) == Concat(groups)
  {
    hide AllHex;
    hide Clean;
    assert gaps[0] in gaps;
    if groups == [] {
      CleanGap(gaps[0], "");
      assert gaps[0] + "" == gaps[0];
      CleanNothing();
    } else {
      var g, rest := groups[0], Printed(groups[1..], gaps[1..]);
      assert g in groups;
      CleanPrinted(groups[1..], gaps[1..]);
      assert gaps[1..][0] in gaps;
      PrintedFirst(groups[1..], gaps[1..]);
      var tail := g + rest;
      assert Printed(groups, gaps) == gaps[0] + (PREFIX + tail);
      CleanGap(gaps[0], PREFIX + tail);
      CleanPrefix(tail);
      CleanDigits(g, rest);
    }
  }

  lemma CleanNothing()
    ensures Clean("") == ""
  {
  }

  lemma CleanPrefix(tail: string)
    ensures Clean(PREFIX + tail) == Clean(tail)
  {
    var s := PREFIX + tail;
    assert s[0] == '0' && s[1] == 'x' && s[2..] == tail;
  }

  predicate AsciiText(s: string)
  {
    forall i | 0 <= i < |s| :: s[i] < 128 as char
  }

  lemma HexIsAscii(s: string)
    requires AllHex(s)
    ensures AsciiText(s)
  {
    forall i | 0 <= i < |s|
      ensures s[i] < 128 as char
    {
      assert IsHexDigit(s[i]);
    }
  }

  lemma {:induction false} PrintedIsAscii(groups: seq<string>, gaps: seq<string>)
    requires |gaps| == |groups| + 1
    requires (forall g | g in groups :: AllHex(g)) && (forall s | s in gaps :: IsGap(s))
    ensures AsciiText(Printed(groups, gaps))
    ensures groups != [] ==> '0' in Printed(groups, gaps)
  {
    hide AllHex;
    assert IsGap(gaps[0]);
    if groups != [] {
      assert AllHex(groups[0]);
      HexIsAscii(groups[0]);
      PrintedIsAscii(groups[1..], gaps[1..]);
      assert Printed(groups, gaps)[|gaps[0]|] == PREFIX[0];
    }
  }

  lemma HexIsStripped(s: string)
    requires AllHex(s)
    ensures StripText(s) == s
  {
    if s != [] {
      assert IsHexDigit(s[0]) && IsHexDigit(s[|s| - 1]);
    }
  }

  /** The bytes of an ASCII text. */
  function Encoded(text: string): (b: seq<byte>)
    requires AsciiText(text)
    ensures |b| == |text|
  {
    seq(|text|, i requires 0 <= i < |text| => text[i] as byte)
  }

  lemma EncodedChars(text: string)
    requires AsciiText(text)
    ensures IsAscii(Encoded(text)) && Chars(Encoded(text)) == text
    ensures '0' in text ==> 0x30 in Encoded(text)
  {
    assert forall i | 0 <= i < |text| :: Encoded(text)[i] == text[i] as int;
    if '0' in text {
      var i :| 0 <= i < |text| && text[i] == '0';
      assert Encoded(text)[i] == 0x30;
    }
  }

  /** c prints the digit d, in either case. */
  predicate PrintsDigit(c: char, d: nat)
    requires d < 16
  {
    c == "0123456789abcdef"[d] || c == "0123456789ABCDEF"[d]
  }

  /** s prints the key, the high digit of every byte first. */
  ghost predicate Prints(s: string, key: seq<byte>)
  {
    && |s| == 2 * |key|
    && forall i | 0 <= i < |key| ::
      PrintsDigit(s[2 * i], key[i] / 16) && PrintsDigit(s[2 * i + 1], key[i] % 16)
  }

  lemma DigitIs(c: char, d: nat)
    requires d < 16
    ensures PrintsDigit(c, d) <==> HexValue(c) == Some(d)
  {
  }

  /** unhexlify reads exactly the texts that print the key. */
  lemma {:induction false} UnhexlifyIs(s: string, key: seq<byte>)
    ensures Unhexlify(s) == Some(key) <==> Prints(s, key)
    decreases |s|
  {
    hide HexValue;
    hide PrintsDigit;
    if |s| >= 2 && key != [] {
      UnhexlifyIs(s[2..], key[1..]);
      ByteIs(s[0], s[1], key[0]);
      PrintsNext(s, key);
      UnhexlifyNext(s, key);
    }
  }

  lemma PrintsNext(s: string, key: seq<byte>)
    requires |s| >= 2 && key != []
    ensures Prints(s, key) <==>
      PrintsDigit(s[0], key[0] / 16) && PrintsDigit(s[1], key[0] % 16) && Prints(s[2..], key[1..])
  {
    hide PrintsDigit;
    var t, rest := s[2..], key[1..];
    if Prints(s, key) {
      forall i | 0 <= i < |rest|
        ensures PrintsDigit(t[2 * i], rest[i] / 16) && PrintsDigit(t[2 * i + 1], rest[i] % 16)
      {
        assert t[2 * i] == s[2 * (i + 1)] && t[2 * i + 1] == s[2 * (i + 1) + 1] && rest[i] == key[i + 1];
      }
    }
    if PrintsDigit(s[0], key[0] / 16) && PrintsDigit(s[1], key[0] % 16) && Prints(t, rest) {
      forall i | 0 <= i < |key|
        ensures PrintsDigit(s[2 * i], key[i] / 16) && PrintsDigit(s[2 * i + 1], key[i] % 16)
      {
        if i > 0 {
          assert t[2 * (i - 1)] == s[2 * i] && t[2 * (i - 1) + 1] == s[2 * i + 1] && rest[i - 1] == key[i];
        }
      }
    }
  }

  lemma ByteIs(c: char, d: char, b: byte)
    ensures HexValue(c) == Some((b / 16) as nat) && HexValue(d) == Some((b % 16) as nat)
       <==> HexValue(c).Some? && HexValue(d).Some? && 16 * HexValue(c).value + HexValue(d).value == b
    ensures PrintsDigit(c, b / 16) && PrintsDigit(d, b % 16)
       <==> HexValue(c) == Some((b / 16) as nat) && HexValue(d) == Some((b % 16) as nat)
  {
    DigitIs(c, b / 16);
    DigitIs(d, b % 16);
    ValueIsSmall(c);
    ValueIsSmall(d);
  }

  lemma ValueIsSmall(c: char)
    ensures HexValue(c).Some? ==> HexValue(c).value < 16
  {
  }

  lemma UnhexlifyNext(s: string, key: seq<byte>)
    requires |s| >= 2 && key != []
    ensures Unhexlify(s) == Some(key) <==>
      && HexValue(s[0]).Some? && HexValue(s[1]).Some? && 16 * HexValue(s[0]).value + HexValue(s[1]).value == key[0]
      && Unhexlify(s[2..]) == Some(key[1..])
  {
    hide HexValue;
    assert key == [key[0]] + key[1..];
    if Unhexlify(s) == Some(key) {
      var rest := Unhexlify(s[2..]).value;
      assert key[0] == 16 * HexValue(s[0]).value + HexValue(s[1]).value && key[1..] == rest;
    }
  }

  lemma {:induction false} ReadableIsHex(s: string)
    requires Unhexlify(s).Some?
    ensures AllHex(s)
    decreases |s|
  {
    if s != [] {
      ReadableIsHex(s[2..]);
      assert s == [s[0], s[1]] + s[2..];
    }
  }

  lemma {:induction false} GroupsAreHex(groups: seq<string>)
    requires AllHex(Concat(groups))
    ensures forall g | g in groups :: AllHex(g)
  {
    if groups != [] {
      var g, rest := groups[0], Concat(groups[1..]);
      assert forall c | c in g :: c in g + rest;
      assert forall c | c in rest :: c in g + rest;
      GroupsAreHex(groups[1..]);
      assert groups == [g] + groups[1..];
    }
  }

  /**
   * The key text round trip. A 16- or 32-byte key printed in hex digits, each of either case, cut into
   * groups behind "0x" with any mix of blanks and line breaks around them, is parsed back to itself.
   */
  lemma KeyTextRoundTrip(key: seq<byte>, groups: seq<string>, gaps: seq<string>, decode: seq<byte> -> Option<string>)
    requires |key| == 16 || |key| == 32
    requires |gaps| == |groups| + 1 && forall s | s in gaps :: IsGap(s)
    requires Prints(Concat(groups), key) && Decodes(decode)
    ensures AsciiText(Printed(groups, gaps))
    ensures Parse(Encoded(Printed(groups, gaps)), decode) == (Extracted, if |key| == 16 then SBK else FSKP, key)
  {
    hide StripText;
    hide Unhexlify;
    hide Cleaned;
    hide AllHex;
    hide IsGap;
    hide Prints;
    var text := Printed(groups, gaps);
    UnhexlifyIs(Concat(groups), key);
    ReadableIsHex(Concat(groups));
    GroupsAreHex(groups);
    PrintedIsAscii(groups, gaps);
    EncodedChars(text);
    CleanedIs(text);
    CleanPrinted(groups, gaps);
    HexIsStripped(Concat(groups));
    assert Unhexlify(Concat(groups)).Some?;
    assert groups != [];
  }

  function Hexlify(key: seq<byte>): string
  {
    if key == [] then "" else [HexDigit(key[0] / 16), HexDigit(key[0] % 16)] + Hexlify(key[1..])
  }

  /** Every key can be printed that way. */
  lemma {:induction false} HexlifyReadsBack(key: seq<byte>)
    ensures Unhexlify(Hexlify(key)) == Some(key) && AllHex(Hexlify(key))
  {
    if key != [] {
      HexlifyReadsBack(key[1..]);
      DigitReadsBack(key[0] / 16);
      DigitReadsBack(key[0] % 16);
      var s := Hexlify(key);
      assert s[2..] == Hexlify(key[1..]);
      assert key == [key[0]] + key[1..];
    }
  }

  lemma DigitReadsBack(d: nat)
    requires d < 16
    ensures HexValue(HexDigit(d)) == Some(d)
  {
  }

  lemma {:induction false} StripShortens(s: string)
    ensures |StripText(s)| <= |s|
    decreases |s|
  {
    if s != [] && IsSpace(s[0]) {
      StripShortens(s[1..]);
    } else if s != [] && IsSpace(s[|s| - 1]) {
      StripShortens(s[..|s| - 1]);
    }
  }

  /** A raw key of 16 or 32 bytes is taken as it is exactly when the byte 0x30 does not occur in it. */
  lemma RawKey(b: seq<byte>, decode: seq<byte> -> Option<string>)
    requires (|b| == 16 || |b| == 32) && Decodes(decode)
    ensures Parse(b, decode).0 == Extracted && Parse(b, decode).2 == b <==> 0x30 !in b
    ensures 0x30 !in b ==> Parse(b, decode).1 == if |b| == 16 then SBK else FSKP
  {
    hide StripText;
    hide Unhexlify;
    hide Cleaned;
    if decode(b).Some? {
      var text := decode(b).value;
      CleanedIs(text);
      StripShortens(Cleaned(text));
    }
  }
}
