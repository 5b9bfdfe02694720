/**
 8.3 names: FatCheckIs8Dot3Name in FatPkg/EnhancedFatDxe/FileName.c, with the Unicode collation
 protocol as a parameter.
 */
module ShortName {
  import opened Bytes
  import opened LongName
  import opened Wrappers

  const FAT_MAIN_NAME_LEN: nat := 8
  const FAT_EXTEND_NAME_LEN: nat := 3
  const BLANK: byte := 32
  const EFI_FILE_STRING_LENGTH: nat := 255
  const DOT: Char16 := 46
  const SPACE: Char16 := 32

  type Name = seq<Char16>

  const FAT_CASE_NAME_LOWER: byte := 0x08
  const FAT_CASE_EXT_LOWER: byte := 0x10

  /**
   What the driver gets from outside: the Unicode collation protocol (FatStriCmp, FatStrUpr, FatStrLwr,
   FatStrToFat and FatFatToStr) and the two uses of CRC32.
   */
  datatype Collation = Collation(
    equal: (Name, Name) -> bool,
    upper: Name -> Name,
    lower: Name -> Name,
    strToFat: (Name, nat) -> (seq<byte>, bool),
    fatToStr: seq<byte> -> Name,
    longCrc: Name -> nat,
    shortCrc: FatName -> nat)

  /** FatStrToFat of at most `n` characters into a field of `size` blanks. */
  function Field(col: Collation, s: Name, n: nat, size: nat): (r: seq<byte>)
    ensures |r| == size
  {
    var f := col.strToFat(s, n).0;
    if |f| >= size then f[..size] else f + seq(size - |f|, _ => BLANK)
  }

  function Min(a: nat, b: nat): nat {
    if a < b then a else b
  }

  /** The position of the last dot, or the length of the name. */
  function LastDot(name: Name): (r: nat)
    ensures r <= |name|
    ensures r < |name| ==> name[r] == DOT
    ensures forall i :: r < i < |name| ==> name[i] != DOT
    ensures r == |name| ==> forall i :: 0 <= i < |name| ==> name[i] != DOT
  {
    if name == [] then 0
    else if name[|name| - 1] == DOT then |name| - 1
    else
      var r := LastDot(name[..|name| - 1]);
      if r == |name| - 1 then |name| else r
  }

  function MainPart(name: Name): Name {
    name[..LastDot(name)]
  }

  function ExtPart(name: Name): Name {
    if LastDot(name) == |name| then [] else name[LastDot(name) + 1..]
  }

  predicate Plain(s: Name) {
    forall i :: 0 <= i < |s| ==> s[i] != DOT && s[i] != SPACE
  }

  /** The 8.3 form, or the base tag of one; the protocol sees the whole rest of the name and skips blanks and dots. */
  function To8Dot3(col: Collation, name: Name): FatName {
    Field(col, name, Min(|MainPart(name)|, FAT_MAIN_NAME_LEN), FAT_MAIN_NAME_LEN)
    + Field(col, ExtPart(name), Min(|ExtPart(name)|, FAT_EXTEND_NAME_LEN), FAT_EXTEND_NAME_LEN)
  }

  /** A valid short name: one to eight plain characters, then at most three after a dot, all representable. */
  predicate Is8Dot3(col: Collation, name: Name) {
    && Plain(MainPart(name)) && Plain(ExtPart(name))
    && 0 < |MainPart(name)| <= FAT_MAIN_NAME_LEN && |ExtPart(name)| <= FAT_EXTEND_NAME_LEN
    && !col.strToFat(name, |MainPart(name)|).1 && !col.strToFat(ExtPart(name), |ExtPart(name)|).1
  }

  /** The first scan of FatCheckIs8Dot3Name. */
  method FindSeparateDot(name: Name) returns (separateDot: nat)
    ensures separateDot == LastDot(name)
  {
    var temp := 0;
    separateDot := |name|;
    while temp < |name|
      invariant 0 <= temp <= |name|
      invariant separateDot == if LastDot(name[..temp]) == temp then |name| else LastDot(name[..temp])
    {
      assert name[..temp + 1][..temp] == name[..temp];
      if name[temp] == DOT {
        separateDot := temp;
      }
      temp := temp + 1;
    }
    assert name[..temp] == name;
  }

  /** The second scan: extra blanks and dots. */
  method NoExtraBlanksOrDots(name: Name, separateDot: nat) returns (none: bool)
    ensures none <==> forall i :: 0 <= i < |name| && i != separateDot ==> name[i] != DOT && name[i] != SPACE
  {
    none := true;
    var temp := |name|;
    while temp > 0
      invariant 0 <= temp <= |name|
      invariant none <==> forall i :: temp <= i < |name| && i != separateDot ==> name[i] != DOT && name[i] != SPACE
    {
      temp := temp - 1;
      if (name[temp] == DOT || name[temp] == SPACE) && temp != separateDot {
        none := false;
      }
    }
  }

  /** FatCheckIs8Dot3Name: two scans over the name, then the two conversions. */
  method CheckIs8Dot3Name(col: Collation, name: Name) returns (possibleShortName: bool, short: FatName)
    ensures possibleShortName == Is8Dot3(col, name) && short == To8Dot3(col, name)
  {
    hide LastDot, Plain;
    var separateDot := FindSeparateDot(name);
    var mainNameLen := separateDot;
    var extName := if separateDot == |name| then [] else name[separateDot + 1..];
    var extNameLen := |extName|;
    assert extName == ExtPart(name) && mainNameLen == |MainPart(name)|;
    possibleShortName := NoExtraBlanksOrDots(name, separateDot);
    PlainParts(name);
    if mainNameLen == 0 {
      possibleShortName := false;
    }
    if mainNameLen > FAT_MAIN_NAME_LEN {
      possibleShortName, mainNameLen := false, FAT_MAIN_NAME_LEN;
    }
    if extNameLen > FAT_EXTEND_NAME_LEN {
      possibleShortName, extNameLen := false, FAT_EXTEND_NAME_LEN;
    }
    if col.strToFat(name, mainNameLen).1 {
      possibleShortName := false;
    }
    if col.strToFat(extName, extNameLen).1 {
      possibleShortName := false;
    }
    short := Field(col, name, mainNameLen, FAT_MAIN_NAME_LEN) + Field(col, extName, extNameLen, FAT_EXTEND_NAME_LEN);
  }

  lemma {:induction false} PlainParts(name: Name)
    ensures Plain(MainPart(name)) && Plain(ExtPart(name))
            <==> forall i :: 0 <= i < |name| && i != LastDot(name) ==> name[i] != DOT && name[i] != SPACE
  {
    var k, m, x := LastDot(name), MainPart(name), ExtPart(name);
    if Plain(m) && Plain(x) {
      forall i | 0 <= i < |name| && i != k ensures name[i] != DOT && name[i] != SPACE {
        if i < k { assert m[i] == name[i]; } else { assert x[i - k - 1] == name[i]; }
      }
    }
  }

  // ----- case flags

  /** FatCheckNameCase: no flag for upper case, the given one for lower case, none at all for mixed case. */
  function PartCase(col: Collation, part: Name, lowerFlag: byte): Option<byte> {
    if col.upper(part) == part then Some(0) else if col.lower(part) == part then Some(lowerFlag) else None
  }

  /** FatSetCaseFlag: the flags of both parts, or nothing if one of them is of mixed case. */
  function CaseFlags(col: Collation, name: Name): Option<byte> {
    var main, ext := PartCase(col, MainPart(name), FAT_CASE_NAME_LOWER), PartCase(col, ExtPart(name), FAT_CASE_EXT_LOWER);
    if main.None? || ext.None? then None
    else if main.value == 0 then ext
    else if ext.value == 0 then main
    else Some(FAT_CASE_NAME_LOWER + FAT_CASE_EXT_LOWER)
  }

  predicate HasFlag(flags: byte, flag: byte)
    requires flag > 0
  {
    flags / flag % 2 == 1
  }

  /** Bit 3 says that the main part is in lower case, bit 4 that the extension is; the other bits are clear. */
  lemma {:induction false} CaseFlagBits(col: Collation, name: Name)
    requires CaseFlags(col, name).Some?
    ensures var f: nat := CaseFlags(col, name).value;
            && f in {0, 0x08, 0x10, 0x18}
            && (f in {0x08, 0x18} <==> col.upper(MainPart(name)) != MainPart(name)) && (f in {0x10, 0x18} <==> col.upper(ExtPart(name)) != ExtPart(name))
  {
    hide MainPart, ExtPart;
  }

  function TrimLen(s: seq<byte>, n: nat): (r: nat)
    requires n <= |s|
    ensures r <= n
  {
    if n > 0 && s[n - 1] == BLANK then TrimLen(s, n - 1) else n
  }

  /** Exactly the trailing blanks are cut. */
  lemma {:induction false} TrimLenCuts(s: seq<byte>, n: nat)
    requires n <= |s|
    ensures var r := TrimLen(s, n);
            (r > 0 ==> s[r - 1] != BLANK) && forall i :: r <= i < n ==> s[i] == BLANK
  {
    if n > 0 && s[n - 1] == BLANK { TrimLenCuts(s, n - 1); }
  }

  /** FatTrimAsciiTrailingBlanks. */
  method TrimAsciiTrailingBlanks(s: seq<byte>, len: nat) returns (n: nat)
    requires len <= |s|
    ensures n == TrimLen(s, len)
    ensures n <= len && (n > 0 ==> s[n - 1] != BLANK) && forall i :: n <= i < len ==> s[i] == BLANK
  {
    n := len;
    while n > 0 && s[n - 1] == BLANK
      invariant n <= len && TrimLen(s, n) == TrimLen(s, len)
    {
      n := n - 1;
    }
    TrimLenCuts(s, len);
  }

  /** FatNameToStr. */
  function NameToStr(col: Collation, fat: seq<byte>, lowerCase: bool): Name {
    var s := col.fatToStr(fat[..TrimLen(fat, |fat|)]);
    if lowerCase then col.lower(s) else s
  }

  /** FatGetFileNameViaCaseFlag: the short name as a string. */
  function ViaCase(col: Collation, e: DirEntry): Name {
    var main := NameToStr(col, e.fileName[..FAT_MAIN_NAME_LEN], HasFlag(e.caseFlag, FAT_CASE_NAME_LOWER));
    var ext := NameToStr(col, e.fileName[FAT_MAIN_NAME_LEN..], HasFlag(e.caseFlag, FAT_CASE_EXT_LOWER));
    if ext == [] || ext[0] == 0 then main else main + [DOT] + ext
  }

  function Via(col: Collation): DirEntry -> Name {
    (e: DirEntry) => ViaCase(col, e)
  }

  // ----- names a file can be created with

  predicate LegalChar(c: Char16) {
    c >= 0x20 && c !in {34, 42, 47, 58, 60, 62, 63, 92, 124}
  }

  /** The characters refused in a name, as characters. */
  lemma {:induction false} LegalChars(c: char)
    requires c as int < 0x1_0000
    ensures LegalChar(c as int) <==> c >= ' ' && c !in "\"*/:<>?\\|"
  {
  }

  /** What FatFileNameIsValid lets through: legal characters, no blank or dot at the end, at most 255 of them. */
  predicate NameOk(name: Name) {
    && 0 < |name| <= EFI_FILE_STRING_LENGTH && (forall i :: 0 <= i < |name| ==> LegalChar(name[i]))
    && name[|name| - 1] != DOT && name[|name| - 1] != SPACE
  }

  function LeadingTrimmed(s: Name): Name {
    if s != [] && s[0] == SPACE then LeadingTrimmed(s[1..]) else s
  }

  function TrailingTrimmed(s: Name): Name {
    if s != [] && (s[|s| - 1] == SPACE || s[|s| - 1] == DOT) then TrailingTrimmed(s[..|s| - 1]) else s
  }

  lemma {:induction false} TrailingTrimmedEnds(s: Name)
    ensures var r := TrailingTrimmed(s); r != [] ==> r[|r| - 1] != DOT && r[|r| - 1] != SPACE
    decreases |s|
  {
    if s != [] && (s[|s| - 1] == SPACE || s[|s| - 1] == DOT) { TrailingTrimmedEnds(s[..|s| - 1]); }
  }

  /** FatFileNameIsValid: trims the name and accepts exactly the names a file can be created with. */
  method FileNameIsValid(input: Name) returns (valid: bool, output: Name)
    ensures output == TrailingTrimmed(LeadingTrimmed(input)) && valid == NameOk(output)
  {
    output := input;
    while output != [] && output[0] == SPACE
      invariant LeadingTrimmed(output) == LeadingTrimmed(input)
      decreases |output|
    {
      output := output[1..];
    }
    ghost var trimmed := output;
    while |output| > 0 && (output[|output| - 1] == SPACE || output[|output| - 1] == DOT)
      invariant TrailingTrimmed(output) == TrailingTrimmed(trimmed)
      decreases |output|
    {
      output := output[..|output| - 1];
    }
    TrailingTrimmedEnds(trimmed);
    if |output| > EFI_FILE_STRING_LENGTH || |output| == 0 {
      return false, output;
    }
    for i := 0 to |output|
      invariant forall j :: 0 <= j < i ==> LegalChar(output[j])
    {
      if !LegalChar(output[i]) {
        return false, output;
      }
    }
    valid := true;
  }

  // ----- what the driver relies on

  /** Upper-casing works character by character as far as length, dots and blanks go. */
  ghost predicate UpperLaws(col: Collation) {
    && (forall s :: |col.upper(s)| == |s|)
    && (forall s, i :: 0 <= i < |s| ==> (col.upper(s)[i] == DOT <==> s[i] == DOT) && (col.upper(s)[i] == SPACE <==> s[i] == SPACE))
    && (forall s: Name, k {:trigger col.upper(s[k..])} :: 0 <= k <= |s| ==> col.upper(s[k..]) == col.upper(s)[k..])
    && (forall s :: col.lower(col.upper(s)) == col.lower(s))
  }

  /** The conversion to 8.3 characters ignores case, makes no slot mark, and is undone up to case. */
  ghost predicate FatLaws(col: Collation) {
    && (forall s, n :: col.strToFat(s, n) == col.strToFat(col.upper(s), n))
    && (forall s, n, i :: 0 <= i < |col.strToFat(s, n).0| ==> NotAMark(col.strToFat(s, n).0[i]))
    && (forall s: Name, n: nat {:trigger col.strToFat(s, n)} :: n <= |s| && Plain(s[..n]) && !col.strToFat(s, n).1 ==>
          && |col.strToFat(s, n).0| == n && BLANK !in col.strToFat(s, n).0
          && col.fatToStr(col.strToFat(s, n).0) == col.upper(s[..n]))
  }

  /** Comparison is an equivalence, and equal names have equal upper-casing. */
  ghost predicate EqualLaws(col: Collation) {
    && (forall a :: col.equal(a, a))
    && (forall a, b :: col.equal(a, b) ==> col.equal(b, a))
    && (forall a, b, c :: col.equal(a, b) && col.equal(b, c) ==> col.equal(a, c))
    && (forall a, b :: col.equal(a, b) ==> col.upper(a) == col.upper(b))
  }

  /** The collation protocol as the driver relies on it. */
  ghost predicate Lawful(col: Collation) {
    EqualLaws(col) && UpperLaws(col) && FatLaws(col)
  }

  predicate NotAMark(b: byte) {
    b != EMPTY_ENTRY_MARK && b != DELETE_ENTRY_MARK
  }

  lemma {:induction false} LastDotIs(name: Name, k: nat)
    requires k <= |name| && (k < |name| ==> name[k] == DOT) && forall i :: k < i < |name| ==> name[i] != DOT
    requires k == |name| ==> forall i :: 0 <= i < |name| ==> name[i] != DOT
    ensures LastDot(name) == k
  {
  }

  /** Upper-casing changes neither where the dot is nor which parts are plain. */
  lemma {:induction false} UpperParts(col: Collation, name: Name)
    requires UpperLaws(col)
    ensures LastDot(col.upper(name)) == LastDot(name) && |MainPart(col.upper(name))| == |MainPart(name)|
    ensures ExtPart(col.upper(name)) == col.upper(ExtPart(name))
    ensures Plain(MainPart(name)) && Plain(ExtPart(name)) <==> Plain(MainPart(col.upper(name))) && Plain(ExtPart(col.upper(name)))
  {
    var u, k := col.upper(name), LastDot(name);
    LastDotIs(u, k);
    hide LastDot;
    if k < |name| {
      assert col.upper(name[k + 1..]) == u[k + 1..];
    } else {
      assert |col.upper([])| == 0;
    }
    assert forall i :: 0 <= i < |name| ==> (u[i] != DOT && u[i] != SPACE <==> name[i] != DOT && name[i] != SPACE);
    hide Plain;
    PlainParts(name);
    PlainParts(u);
  }

  /** Upper-casing does not matter to the 8.3 form. */
  lemma {:induction false} UpperShort(col: Collation, name: Name)
    requires UpperLaws(col) && FatLaws(col)
    ensures To8Dot3(col, col.upper(name)) == To8Dot3(col, name) && Is8Dot3(col, col.upper(name)) == Is8Dot3(col, name)
  {
    UpperParts(col, name);
    hide UpperLaws, LastDot, Plain;
    var m, x := |MainPart(name)|, ExtPart(name);
    assert |col.upper(x)| == |x| by { UpperLength(col, x); }
    ConvertUpper(col, name, m);
    ConvertUpper(col, name, Min(m, FAT_MAIN_NAME_LEN));
    ConvertUpper(col, x, |x|);
    ConvertUpper(col, x, Min(|x|, FAT_EXTEND_NAME_LEN));
    hide FatLaws;
  }

  lemma {:induction false} UpperLength(col: Collation, s: Name)
    requires UpperLaws(col)
    ensures |col.upper(s)| == |s|
  {
  }

  lemma {:induction false} ConvertUpper(col: Collation, s: Name, n: nat)
    requires FatLaws(col)
    ensures col.strToFat(col.upper(s), n) == col.strToFat(s, n)
  {
  }

  /** Equal names have the same 8.3 form. */
  lemma {:induction false} EqualShort(col: Collation, a: Name, b: Name)
    requires Lawful(col) && col.equal(a, b)
    ensures To8Dot3(col, a) == To8Dot3(col, b) && Is8Dot3(col, a) == Is8Dot3(col, b)
  {
    hide To8Dot3, Is8Dot3;
    UpperShort(col, a);
    UpperShort(col, b);
  }

  // ----- the short name gives the name back

  lemma {:induction false} TrimField(b: seq<byte>, size: nat)
    requires |b| <= size && BLANK !in b
    ensures var f := b + seq(size - |b|, _ => BLANK); TrimLen(f, size) == |b|
  {
    var f := b + seq(size - |b|, _ => BLANK);
    TrimLenCuts(f, size);
    assert forall i :: 0 <= i < |b| ==> f[i] == b[i];
    assert |b| > 0 ==> f[|b| - 1] != BLANK;
  }

  /** One part of a name of pure upper or lower case survives its field and its flag. */
  lemma {:induction false} PartRoundTrip(col: Collation, s: Name, n: nat, size: nat, lowerFlag: byte)
    requires UpperLaws(col) && FatLaws(col) && lowerFlag != 0
    requires n <= |s| && n <= size && Plain(s[..n]) && !col.strToFat(s, n).1 && PartCase(col, s[..n], lowerFlag).Some?
    ensures NameToStr(col, Field(col, s, n, size), PartCase(col, s[..n], lowerFlag).value == lowerFlag) == s[..n]
  {
    var b := col.strToFat(s, n).0;
    assert |b| == n && BLANK !in b && col.fatToStr(b) == col.upper(s[..n]);
    TrimField(b, size);
    var f := Field(col, s, n, size);
    assert f == b + seq(size - |b|, _ => BLANK);
    assert f[..n] == b;
    assert col.lower(col.upper(s[..n])) == col.lower(s[..n]);
  }

  lemma {:induction false} FlagsSplit(col: Collation, name: Name)
    requires CaseFlags(col, name).Some?
    ensures var main, ext := PartCase(col, MainPart(name), FAT_CASE_NAME_LOWER), PartCase(col, ExtPart(name), FAT_CASE_EXT_LOWER);
            && main.Some? && ext.Some?
            && HasFlag(CaseFlags(col, name).value, FAT_CASE_NAME_LOWER) == (main.value == FAT_CASE_NAME_LOWER)
            && HasFlag(CaseFlags(col, name).value, FAT_CASE_EXT_LOWER) == (ext.value == FAT_CASE_EXT_LOWER)
  {
  }

  lemma {:induction false} NoNul(name: Name)
    requires NameOk(name)
    ensures forall i :: 0 <= i < |name| ==> name[i] != 0 && LegalChar(name[i])
  {
  }

  /**
   FatSetCaseFlag and FatGetFileNameViaCaseFlag: a valid short name without mixed case, of a name that may be
   created, is read back as that name.
   */
  lemma {:induction false} CaseRoundTrip(col: Collation, name: Name, e: DirEntry)
    requires UpperLaws(col) && FatLaws(col) && NameOk(name) && Is8Dot3(col, name)
    requires CaseFlags(col, name) == Some(e.caseFlag) && e.fileName == To8Dot3(col, name)
    ensures ViaCase(col, e) == name
  {
    var k, x := LastDot(name), ExtPart(name);
    assert name[..k] == MainPart(name) && x[..|x|] == x;
    ShortFields(col, name);
    FlagsSplit(col, name);
    Joined(name);
    PartRoundTrip(col, name, k, FAT_MAIN_NAME_LEN, FAT_CASE_NAME_LOWER);
    PartRoundTrip(col, x, |x|, FAT_EXTEND_NAME_LEN, FAT_CASE_EXT_LOWER);
    hide LastDot, HasFlag, CaseFlags, Field, NameToStr, PartCase, Plain, UpperLaws, FatLaws, To8Dot3, LegalChar, NameOk, MainPart, ExtPart, Is8Dot3;
  }

  lemma {:induction false} ShortFields(col: Collation, name: Name)
    requires Is8Dot3(col, name)
    ensures To8Dot3(col, name)[..FAT_MAIN_NAME_LEN] == Field(col, name, LastDot(name), FAT_MAIN_NAME_LEN)
    ensures To8Dot3(col, name)[FAT_MAIN_NAME_LEN..] == Field(col, ExtPart(name), |ExtPart(name)|, FAT_EXTEND_NAME_LEN)
  {
    hide LastDot, Field, Plain;
  }

  /** A name that ends neither in a dot nor in a blank is its two parts joined by a dot, if there is a second part. */
  lemma {:induction false} Joined(name: Name)
    requires NameOk(name)
    ensures var m, x := MainPart(name), ExtPart(name); name == if x == [] || x[0] == 0 then m else m + [DOT] + x
  {
    var k, x := LastDot(name), ExtPart(name);
    hide LastDot;
    NoNul(name);
    if k < |name| {
      assert name[|name| - 1] != DOT;
      assert x[0] == name[k + 1];
    }
  }
}
