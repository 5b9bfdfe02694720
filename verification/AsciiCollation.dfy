/**
 Case mapping and conversion on plain ASCII, as an instance of the collation protocol: it meets the laws, and
 short names with case flags come back as they were.
 */
module AsciiCollation {
  import opened Bytes
  import opened Wrappers
  import opened LongName
  import opened ShortName

  function AsciiUpper(c: Char16): Char16 {
    if 97 <= c <= 122 then c - 32 else c
  }

  function AsciiLower(c: Char16): Char16 {
    if 65 <= c <= 90 then c + 32 else c
  }

  function MapUpper(s: Name): (r: Name)
    ensures |r| == |s| && forall i :: 0 <= i < |s| ==> r[i] == AsciiUpper(s[i])
  {
    if s == [] then [] else [AsciiUpper(s[0])] + MapUpper(s[1..])
  }

  function MapLower(s: Name): (r: Name)
    ensures |r| == |s| && forall i :: 0 <= i < |s| ==> r[i] == AsciiLower(s[i])
  {
    if s == [] then [] else [AsciiLower(s[0])] + MapLower(s[1..])
  }

  /** A printable ASCII character as an 8.3 character; anything else becomes an underscore. */
  function AsciiByte(c: Char16): byte {
    if 32 < c < 127 then AsciiUpper(c) as int else 95
  }

  /** The conversion of the English collation driver: skip blanks and dots, stop after `n` characters. */
  function AsciiToFat(s: Name, n: nat): (seq<byte>, bool) {
    if s == [] || n == 0 then ([], false)
    else if s[0] == DOT || s[0] == SPACE then AsciiToFat(s[1..], n)
    else
      var rest := AsciiToFat(s[1..], n - 1);
      ([AsciiByte(s[0])] + rest.0, rest.1 || !(32 < s[0] < 127))
  }

  function AsciiToStr(b: seq<byte>): (r: Name)
    ensures |r| == |b| && forall i :: 0 <= i < |b| ==> r[i] == b[i]
  {
    if b == [] then [] else [b[0] as Char16] + AsciiToStr(b[1..])
  }

  function Ascii(): Collation {
    Collation((a, b) => MapUpper(a) == MapUpper(b), a => MapUpper(a), a => MapLower(a), (s, n) => AsciiToFat(s, n), b => AsciiToStr(b), n => 0, s => 0)
  }

  lemma {:induction false} AsciiStep(s: Name, n: nat)
    requires s != [] && n > 0 && s[0] != DOT && s[0] != SPACE
    ensures var rest := AsciiToFat(s[1..], n - 1);
            && AsciiToFat(s, n).0 == [AsciiByte(s[0])] + rest.0
            && AsciiToFat(s, n).1 == (rest.1 || !(32 < s[0] < 127))
  {
  }

  lemma {:induction false} AsciiUpperTwice(s: Name)
    ensures MapLower(MapUpper(s)) == MapLower(s)
  {
    assert forall i :: 0 <= i < |s| ==> MapLower(MapUpper(s))[i] == MapLower(s)[i];
  }

  lemma {:induction false} AsciiIgnoresCase(s: Name, n: nat)
    ensures AsciiToFat(s, n) == AsciiToFat(MapUpper(s), n)
    decreases |s|
  {
    if s != [] && n > 0 {
      var u := MapUpper(s);
      assert u[1..] == MapUpper(s[1..]);
      AsciiIgnoresCase(s[1..], n);
      AsciiIgnoresCase(s[1..], n - 1);
      assert AsciiByte(u[0]) == AsciiByte(s[0]);
    }
  }

  lemma {:induction false} AsciiMakesNoMark(s: Name, n: nat)
    ensures forall i :: 0 <= i < |AsciiToFat(s, n).0| ==> NotAMark(AsciiToFat(s, n).0[i])
    decreases |s|
  {
    if s != [] && n > 0 {
      AsciiMakesNoMark(s[1..], n);
      AsciiMakesNoMark(s[1..], n - 1);
    }
  }

  lemma {:induction false} AsciiUndone(s: Name, n: nat)
    requires n <= |s| && Plain(s[..n]) && !AsciiToFat(s, n).1
    ensures var b := AsciiToFat(s, n).0; |b| == n && BLANK !in b && AsciiToStr(b) == MapUpper(s[..n])
    decreases n
  {
    if n > 0 {
      var p, rest := s[..n], s[1..];
      assert s[0] == p[0] && rest[..n - 1] == p[1..];
      AsciiUndone(rest, n - 1);
      var b, u := AsciiToFat(s, n).0, MapUpper(p);
      assert b == [AsciiByte(s[0])] + AsciiToFat(rest, n - 1).0;
      assert forall i :: 0 <= i < n ==> AsciiToStr(b)[i] == u[i];
    }
  }

  /** The laws hold of plain ASCII, with real short names among them. */
  lemma {:induction false} AsciiIsLawful()
    ensures Lawful(Ascii())
  {
    var col := Ascii();
    forall s: Name ensures col.lower(col.upper(s)) == col.lower(s) { AsciiUpperTwice(s); }
    forall s: Name, k | 0 <= k <= |s| ensures col.upper(s[k..]) == col.upper(s)[k..] {
      assert MapUpper(s[k..]) == MapUpper(s)[k..];
    }
    forall s: Name, n: nat ensures col.strToFat(s, n) == col.strToFat(col.upper(s), n) { AsciiIgnoresCase(s, n); }
    forall s: Name, n: nat, i | 0 <= i < |col.strToFat(s, n).0| ensures NotAMark(col.strToFat(s, n).0[i]) { AsciiMakesNoMark(s, n); }
    forall s: Name, n: nat | n <= |s| && Plain(s[..n]) && !col.strToFat(s, n).1
      ensures |col.strToFat(s, n).0| == n && BLANK !in col.strToFat(s, n).0 && col.fatToStr(col.strToFat(s, n).0) == col.upper(s[..n])
    {
      AsciiUndone(s, n);
    }
    assert UpperLaws(col);
    assert EqualLaws(col);
    assert FatLaws(col);
  }

  /** "a.TXT". */
  function ExampleName(): Name {
    [97, DOT, 84, 88, 84]
  }

  lemma {:induction false} ExampleParts()
    ensures MainPart(ExampleName()) == [97] && ExtPart(ExampleName()) == [84, 88, 84] && NameOk(ExampleName())
  {
    LastDotIs(ExampleName(), 1);
    hide LastDot;
  }

  lemma {:induction false} ExampleConverts()
    ensures !AsciiToFat(ExampleName(), 1).1 && !AsciiToFat([84, 88, 84], 3).1
  {
    var ext: Name := [84, 88, 84];
    AsciiStep(ExampleName(), 1);
    AsciiStep(ext, 3);
    AsciiStep(ext[1..], 2);
    AsciiStep(ext[1..][1..], 1);
  }

  lemma {:induction false} ExampleCase()
    ensures PartCase(Ascii(), [97], FAT_CASE_NAME_LOWER) == Some(FAT_CASE_NAME_LOWER)
    ensures PartCase(Ascii(), [84, 88, 84], FAT_CASE_EXT_LOWER) == Some(0)
  {
    var main: Name, ext: Name := [97], [84, 88, 84];
    assert MapUpper(main)[0] == 65 && MapLower(main) == main && MapUpper(ext) == ext;
  }

  lemma {:induction false} ExampleIsShort()
    ensures Is8Dot3(Ascii(), ExampleName()) && CaseFlags(Ascii(), ExampleName()) == Some(FAT_CASE_NAME_LOWER)
  {
    ExampleParts();
    ExampleConverts();
    ExampleCase();
    hide LastDot, MainPart, ExtPart, AsciiToFat, PartCase, ExampleName;
  }

  /** A valid short name with one lower-case part, which comes back as it was. */
  lemma {:induction false} AsciiExample(e: DirEntry)
    requires e.fileName == To8Dot3(Ascii(), ExampleName()) && e.caseFlag == 0x08
    ensures NameOk(ExampleName()) && Is8Dot3(Ascii(), ExampleName()) && ViaCase(Ascii(), e) == ExampleName()
  {
    hide ExampleName, Ascii, Is8Dot3, NameOk, ViaCase, To8Dot3, CaseFlags;
    ExampleParts();
    ExampleIsShort();
    AsciiIsLawful();
    CaseRoundTrip(Ascii(), ExampleName(), e);
  }
}
