/** The device identifiers both plugins print for the kubelet and read back from it. */
module DeviceIds {
  import opened Strings
  import opened Api
  import opened Planning

  function Prefix(k: Kind, host: string): string {
    "ocp-" + ModName(k) + "-" + host + "-"
  }

  function GetDeviceId(k: Kind, host: string, idx: int): string {
    Prefix(k, host) + Print(idx)
  }

  /** -1 stands for an id that is not one of this host's. */
  function GetIdxFromDeviceId(k: Kind, host: string, id: string): int {
    if !(Prefix(k, host) <= id) then -1
    else
      match ParseInt32(id[|Prefix(k, host)|..])
      case None => -1
      case Some(idx) => idx
  }

  /** A printed id gives back its index exactly for the 32-bit indices. */
  lemma RoundTripIff(k: Kind, host: string, idx: int)
    ensures GetIdxFromDeviceId(k, host, GetDeviceId(k, host, idx)) == idx <==> -INT32_MAX - 1 <= idx <= INT32_MAX
  {
    ParsePrinted(idx);
    assert GetDeviceId(k, host, idx)[|Prefix(k, host)|..] == Print(idx);
  }

  lemma PrintInjective(i: int, j: int)
    requires Print(i) == Print(j)
    ensures i == j
  {
    assert i < 0 <==> Print(i)[0] == '-';
    assert j < 0 <==> Print(j)[0] == '-';
    if i < 0 {
      assert PrintNat(-i) == Print(i)[1..] == PrintNat(-j);
      PrintNatValue(-i);
      PrintNatValue(-j);
    } else {
      PrintNatValue(i);
      PrintNatValue(j);
    }
  }

  /** Distinct indices get distinct ids, whatever their size. */
  lemma IdsInjective(k: Kind, host: string, i: int, j: int)
    requires GetDeviceId(k, host, i) == GetDeviceId(k, host, j)
    ensures i == j
  {
    assert GetDeviceId(k, host, i)[|Prefix(k, host)|..] == Print(i);
    assert GetDeviceId(k, host, j)[|Prefix(k, host)|..] == Print(j);
    PrintInjective(i, j);
  }

  lemma PrefixParts(k: Kind, host: string)
    ensures var p := Prefix(k, host); var h := |ModName(k)| + 5;
            |p| == h + |host| + 1 && p[h..h + |host|] == host && p[|p| - 1] == '-'
    ensures Prefix(k, host)[..|ModName(k)| + 5] == "ocp-" + ModName(k) + "-"
  {
  }

  lemma SameLength(k: Kind, a: string, b: string, id: string)
    requires |a| == |b| && Prefix(k, a) <= id && Prefix(k, b) <= id
    ensures a == b
  {
    PrefixParts(k, a);
    PrefixParts(k, b);
    assert Prefix(k, a) == id[..|Prefix(k, a)|] == Prefix(k, b);
  }

  /** A text with a dash in it that reads as a non-negative integer starts with its only dash and is
      zero behind it. */
  lemma DashReadsAsZero(s: string, at: nat)
    requires at < |s| && s[at] == '-' && ParseInt32(s).Some? && ParseInt32(s).value >= 0
    ensures at == 0 && AllDigits(s[1..]) && DigitsValue(s[1..]) == 0
  {
    NonNegativeShape(s);
  }

  lemma OneDashLonger(k: Kind, owner: string, reader: string)
    requires |owner| == |reader| + 1 && Prefix(k, reader) <= Prefix(k, owner)
    ensures owner == reader + "-"
  {
    var p, q, h := Prefix(k, owner), Prefix(k, reader), |ModName(k)| + 5;
    PrefixParts(k, owner);
    PrefixParts(k, reader);
    assert p[h..h + |reader|] == p[..|q|][h..h + |reader|] == q[h..h + |reader|];
    assert owner[..|reader|] == p[h..h + |owner|][..|reader|] == reader;
    assert owner[|reader|] == p[h + |reader|] == q[h + |reader|];
    assert owner == owner[..|reader|] + [owner[|reader|]];
  }

  /** What is left of an id after the prefix of a shorter host name has the dash that ends the
      longer prefix in it, so it reads as non-negative only as "-0". */
  lemma ShorterReader(k: Kind, owner: string, reader: string, idx: nat)
    requires |reader| < |owner| && Prefix(k, reader) <= GetDeviceId(k, owner, idx)
    ensures GetIdxFromDeviceId(k, reader, GetDeviceId(k, owner, idx)) >= 0 ==> owner == reader + "-" && idx == 0
  {
    var p, q := Prefix(k, owner), Prefix(k, reader);
    PrefixParts(k, owner);
    assert |p| - |q| == |owner| - |reader|;
    var gap := p[|q|..];
    var rest := (p + PrintNat(idx))[|q|..];
    assert rest == gap + PrintNat(idx) && gap[|gap| - 1] == '-';
    if ParseInt32(rest).Some? && ParseInt32(rest).value >= 0 {
      DashReadsAsZero(rest, |gap| - 1);
      assert rest[1..] == PrintNat(idx);
      PrintNatValue(idx);
      OneDashLonger(k, owner, reader);
    }
  }

  lemma LongerReader(k: Kind, owner: string, reader: string, idx: nat)
    requires |owner| < |reader|
    ensures !(Prefix(k, reader) <= GetDeviceId(k, owner, idx))
  {
    PrefixParts(k, reader);
    var id, p, q := GetDeviceId(k, owner, idx), Prefix(k, owner), Prefix(k, reader);
    assert |q| <= |id| ==> id[|q| - 1] == PrintNat(idx)[|q| - 1 - |p|] && IsDigit(id[|q| - 1]);
    assert q[|q| - 1] == '-' && !IsDigit('-');
  }

  lemma MinusZero(k: Kind, reader: string)
    ensures GetIdxFromDeviceId(k, reader, GetDeviceId(k, reader + "-", 0)) == 0
  {
    var id := GetDeviceId(k, reader + "-", 0);
    assert Print(0) == "0";
    assert id == Prefix(k, reader) + "-0";
    assert id[|Prefix(k, reader)|..] == "-0";
    assert "-0"[1..] == "0";
    assert "0"[..0] == "" && DigitsValue("0") == 0;
  }

  /** Host isolation: an id of one host reads as an index on another exactly when the owner's name
      is the reader's with one more dash, and the index is 0. */
  lemma HostIsolationIff(k: Kind, owner: string, reader: string, idx: nat)
    requires idx <= INT32_MAX
    ensures GetIdxFromDeviceId(k, reader, GetDeviceId(k, owner, idx)) >= 0
            <==> owner == reader || (owner == reader + "-" && idx == 0)
  {
    var id := GetDeviceId(k, owner, idx);
    RoundTripIff(k, owner, idx);
    if owner == reader + "-" && idx == 0 {
      MinusZero(k, reader);
    } else if Prefix(k, reader) <= id && owner != reader {
      if |owner| == |reader| {
        SameLength(k, owner, reader, id);
      } else if |owner| < |reader| {
        LongerReader(k, owner, reader, idx);
      } else {
        ShorterReader(k, owner, reader, idx);
      }
    }
  }

  /** No id of the one plugin reads as an id of the other, on any hosts. */
  lemma PluginIsolation(k: Kind, other: Kind, owner: string, reader: string, idx: int)
    requires k != other
    ensures GetIdxFromDeviceId(other, reader, GetDeviceId(k, owner, idx)) == -1
  {
    assert GetDeviceId(k, owner, idx)[4] == ModName(k)[0];
    assert Prefix(other, reader)[4] == ModName(other)[0];
  }
}
