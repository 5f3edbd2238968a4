/** The search for an unused temporary name in tegraflash_encrypt_sign_binary. */
module TempName {
  import opened Text

  /** str(n) */
  function Decimal(n: nat): (s: string)
    ensures |s| >= 1
  {
    if n < 10 then [DigitOf(n)] else Decimal(n / 10) + [DigitOf(n % 10)]
  }

  function DigitOf(d: nat): (c: char)
    requires d < 10
    ensures c != '_' && c as int == '0' as int + d
  {
    ('0' as int + d) as char
  }

  function ValueOf(s: string): int
  {
    if s == [] then 0 else 10 * ValueOf(s[..|s| - 1]) + (s[|s| - 1] as int - '0' as int)
  }

  lemma {:induction false} DecimalIs(n: nat)
    ensures ValueOf(Decimal(n)) == n && '_' !in Decimal(n)
    ensures forall i | 0 <= i < |Decimal(n)| :: '0' <= Decimal(n)[i] <= '9'
    ensures n >= 1 ==> Decimal(n)[0] != '0'
  {
    if n < 10 {
      assert Decimal(n)[..0] == [];
    } else {
      DecimalIs(n / 10);
      assert Decimal(n)[..|Decimal(n)| - 1] == Decimal(n / 10);
    }
  }

  /** str(i) + "_" + name */
  function TempOf(i: nat, name: string): string
  {
    Decimal(i) + ['_'] + name
  }

  /** temp.split("_", 1)[1] */
  function BehindUnderscore(temp: string): string
    requires '_' in temp
  {
    temp[IndexOf(temp, '_') + 1..]
  }

  /** Splitting a temporary name at its first underscore gives number and name back. */
  lemma TempSplits(i: nat, name: string)
    ensures '_' in TempOf(i, name)
    ensures BehindUnderscore(TempOf(i, name)) == name
    ensures TempOf(i, name)[..IndexOf(TempOf(i, name), '_')] == Decimal(i)
  {
    hide Decimal;
    DecimalIs(i);
    IndexOfFirst(Decimal(i), '_', name);
  }

  lemma TempInjective(i: nat, j: nat, name: string)
    requires TempOf(i, name) == TempOf(j, name)
    ensures i == j
  {
    hide Decimal;
    TempSplits(i, name);
    TempSplits(j, name);
    DecimalIs(i);
    DecimalIs(j);
  }

  /**
   * The loop i = i + 1 ends for every finite directory, with the least number from 1 on whose name is
   * unused; and the name in it is recovered by splitting.
   */
  method FreshName(existing: set<string>, name: string) returns (i: nat, temp: string)
    ensures i >= 1 && temp == TempOf(i, name) && temp !in existing
    ensures forall j | 1 <= j < i :: TempOf(j, name) in existing
    ensures '_' in temp && BehindUnderscore(temp) == name
  {
    hide TempOf;
    i := 1;
    ghost var left := existing;
    while TempOf(i, name) in existing
      invariant i >= 1
      invariant forall j | 1 <= j < i :: TempOf(j, name) in existing
      invariant forall j | i <= j :: TempOf(j, name) in existing ==> TempOf(j, name) in left
      decreases left
    {
      forall j | i < j
        ensures TempOf(j, name) != TempOf(i, name)
      {
        if TempOf(j, name) == TempOf(i, name) {
          TempInjective(j, i, name);
        }
      }
      left := left - {TempOf(i, name)};
      i := i + 1;
    }
    temp := TempOf(i, name);
    TempSplits(i, name);
  }
}
