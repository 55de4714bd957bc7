/**
 8.3 names of fs/fat.c: a C string is parsed into an 11-byte directory name (8 for the
 base, 3 for the extension, padded with spaces, upper case) and printed back.
 */
module FatNames {
  import opened FatData

  const SPACE: byte := 0x20
  const DOT: byte := 0x2E
  const DELETED: byte := 0xE5

  // A C string: the bytes in front of the terminating NUL.
  predicate IsCString(x: seq<byte>) {
    forall i :: 0 <= i < |x| ==> x[i] != 0
  }

  function Upper(c: byte): byte {
    if 0x61 <= c <= 0x7A then c - 32 else c
  }

  // Index of the first c in x, or |x|.
  function IndexOf(x: seq<byte>, c: byte): (r: nat)
    ensures r <= |x|
    ensures r < |x| ==> x[r] == c
    ensures forall i :: 0 <= i < r ==> x[i] != c
  {
    if x == [] || x[0] == c then 0 else 1 + IndexOf(x[1..], c)
  }

  // The first `width` bytes of x in upper case, padded with spaces.
  function Field(x: seq<byte>, width: nat): (r: seq<byte>)
    ensures |r| == width
  {
    seq(width, i requires 0 <= i < width => if i < |x| then Upper(x[i]) else SPACE)
  }

  function Base(x: seq<byte>): seq<byte> {
    x[..IndexOf(x, DOT)]
  }

  function Ext(x: seq<byte>): seq<byte> {
    var d := IndexOf(x, DOT);
    if d == |x| then [] else x[d + 1..]
  }

  // The directory name of the string x.
  function ToFat(x: seq<byte>): (r: seq<byte>)
    ensures |r| == 11
  {
    Field(Base(x), 8) + Field(Ext(x), 3)
  }

  function UpToSpace(p: seq<byte>): seq<byte> {
    p[..IndexOf(p, SPACE)]
  }

  // The printed form of the directory name f.
  function ToStr(f: seq<byte>): seq<byte>
    requires |f| == 11
  {
    UpToSpace(f[..8]) + if f[8] != SPACE then [DOT] + UpToSpace(f[8..]) else []
  }

  method StrToFilename(input: seq<byte>) returns (f: seq<byte>)
    requires IsCString(input)
    ensures f == ToFat(input)
  {
    f := seq(11, _ => SPACE);
    var dot := IndexOf(input, DOT);
    var i: nat := 0;
    while i < dot && i < 8
      invariant i <= dot && i <= 8 && |f| == 11
      invariant forall j :: 0 <= j < 11 ==> f[j] == if j < i then Upper(input[j]) else SPACE
    {
      f := f[i := Upper(input[i])];
      i := i + 1;
    }
    assert f[..8] == Field(Base(input), 8);
    if dot < |input| {
      ghost var base := f[..8];
      var ext := input[dot + 1..];
      i := 0;
      while i < 3 && i < |ext|
        invariant i <= 3 && i <= |ext| && |f| == 11 && f[..8] == base
        invariant forall j :: 8 <= j < 11 ==> f[j] == if j - 8 < i then Upper(ext[j - 8]) else SPACE
      {
        f := f[8 + i := Upper(ext[i])];
        i := i + 1;
      }
    }
    assert f[8..] == Field(Ext(input), 3);
    assert f == f[..8] + f[8..];
  }

  method FilenameToStr(f: seq<byte>) returns (output: seq<byte>)
    requires |f| == 11
    ensures output == ToStr(f)
  {
    output := [];
    var i: nat := 0;
    while i < 8 && f[i] != SPACE
      invariant i <= 8 && output == f[..i]
      invariant forall j :: 0 <= j < i ==> f[j] != SPACE
    {
      output := output + [f[i]];
      i := i + 1;
    }
    FirstSpace(f[..8], i);
    assert output == UpToSpace(f[..8]);
    if f[8] != SPACE {
      ghost var base := output;
      output := output + [DOT];
      i := 8;
      while i < 11 && f[i] != SPACE
        invariant 8 <= i <= 11 && output == base + [DOT] + f[8..i]
        invariant forall j :: 8 <= j < i ==> f[j] != SPACE
      {
        assert f[8..i + 1] == f[8..i] + [f[i]];
        output := output + [f[i]];
        i := i + 1;
      }
      FirstSpace(f[8..], i - 8);
      assert f[8..i] == f[8..][..i - 8];
      assert output == base + ([DOT] + UpToSpace(f[8..]));
    }
  }

  lemma FirstSpace(p: seq<byte>, i: nat)
    requires i <= |p| && (i < |p| ==> p[i] == SPACE)
    requires forall j :: 0 <= j < i ==> p[j] != SPACE
    ensures IndexOf(p, SPACE) == i
  {
  }

  // ---------------------------------------------------------------- print and parse

  // No byte other than a space follows a space.
  predicate LeftJustified(p: seq<byte>) {
    forall i, j :: 0 <= i < j < |p| && p[i] == SPACE ==> p[j] == SPACE
  }

  predicate SpaceFree(x: seq<byte>) {
    forall i :: 0 <= i < |x| ==> x[i] != SPACE
  }

  // A parsed field is in upper case already.
  lemma FieldUpper(x: seq<byte>, width: nat)
    ensures forall i :: 0 <= i < width ==> Upper(Field(x, width)[i]) == Field(x, width)[i]
  {
  }

  // Printing a field up to the first space and parsing it again.
  lemma FieldRoundTrip(p: seq<byte>)
    requires forall i :: 0 <= i < |p| ==> Upper(p[i]) == p[i]
    ensures Field(UpToSpace(p), |p|) == p <==> LeftJustified(p)
  {
    var k := IndexOf(p, SPACE);
    var q := Field(UpToSpace(p), |p|);
    assert forall i :: 0 <= i < |p| ==> q[i] == if i < k then p[i] else SPACE;
    if q == p {
      assert forall i :: k <= i < |p| ==> p[i] == SPACE;
    }
    if LeftJustified(p) {
      assert forall i :: k <= i < |p| ==> p[i] == SPACE;
    }
  }

  // A base field holds no dot, so the printed name splits where it was joined.
  lemma BaseNoDot(x: seq<byte>, i: nat)
    requires i < 8
    ensures ToFat(x)[i] != DOT
  {
    assert ToFat(x)[i] == Field(Base(x), 8)[i];
  }

  lemma PrintedSplits(f: seq<byte>)
    requires |f| == 11
    requires forall i :: 0 <= i < 8 ==> f[i] != DOT
    ensures Base(ToStr(f)) == UpToSpace(f[..8])
    ensures Ext(ToStr(f)) == if f[8] != SPACE then UpToSpace(f[8..]) else []
  {
    var base := UpToSpace(f[..8]);
    var s := ToStr(f);
    assert forall i :: 0 <= i < |base| ==> s[i] == base[i] == f[i];
    var d := IndexOf(s, DOT);
    if f[8] != SPACE {
      assert s[|base|] == DOT;
      assert d == |base|;
      assert s[d + 1..] == UpToSpace(f[8..]);
    } else {
      assert s == base;
      assert d == |s|;
    }
  }

  // Within the first `width` bytes, a space is followed by spaces only.
  predicate NoInnerSpace(x: seq<byte>, width: nat) {
    forall i, j :: 0 <= i < j < |x| && j < width && x[i] == SPACE ==> x[j] == SPACE
  }

  lemma InnerSpace(x: seq<byte>, width: nat)
    ensures LeftJustified(Field(x, width)) <==> NoInnerSpace(x, width)
  {
    var f := Field(x, width);
    assert forall i :: 0 <= i < |x| && i < width ==> (f[i] == SPACE <==> x[i] == SPACE);
  }

  /** Parsing the printed name gives the parsed name back if and only if neither the eight
      bytes before the dot nor the three behind it have a space inside: a space inside a
      name is lost with what follows it. */
  lemma NameRoundTrip(x: seq<byte>)
    ensures ToFat(ToStr(ToFat(x))) == ToFat(x) <==> NoInnerSpace(Base(x), 8) && NoInnerSpace(Ext(x), 3)
  {
    InnerSpace(Base(x), 8);
    InnerSpace(Ext(x), 3);
    FieldsRoundTrip(x);
    assert ToFat(x)[..8] == Field(Base(x), 8) && ToFat(x)[8..] == Field(Ext(x), 3);
  }

  /** "A B" parses to a name that prints as "A". */
  lemma NameLostExample()
    ensures ToStr(ToFat([0x41, 0x20, 0x42])) == [0x41] && ToFat([0x41]) != ToFat([0x41, 0x20, 0x42])
  {
    var x: seq<byte> := [0x41, 0x20, 0x42];
    assert IndexOf(x, DOT) == 3 && Base(x) == x && Ext(x) == [];
    var f := ToFat(x);
    assert f[0] == 0x41 && f[1] == SPACE && f[2] == 0x42 && f[8] == SPACE;
    FirstSpace(f[..8], 1);
    assert UpToSpace(f[..8]) == [0x41];
    assert ToFat([0x41])[2] == SPACE;
  }

  lemma FieldsRoundTrip(x: seq<byte>)
    ensures ToFat(ToStr(ToFat(x))) == ToFat(x)
            <==> LeftJustified(ToFat(x)[..8]) && LeftJustified(ToFat(x)[8..])
  {
    var f := ToFat(x);
    var p, q := f[..8], f[8..];
    assert p == Field(Base(x), 8) && q == Field(Ext(x), 3);
    FieldUpper(Base(x), 8);
    FieldUpper(Ext(x), 3);
    FieldRoundTrip(p);
    FieldRoundTrip(q);
    forall i | 0 <= i < 8
      ensures f[i] != DOT
    {
      BaseNoDot(x, i);
    }
    PrintedSplits(f);
    var g := ToFat(ToStr(f));
    assert g[..8] == Field(UpToSpace(p), 8);
    assert q[0] == f[8];
    ExtPrinted(q);
    assert g[8..] == Field(UpToSpace(q), 3);
    assert g == g[..8] + g[8..] && f == p + q;
  }

  // An extension that starts with a space prints as nothing.
  lemma ExtPrinted(q: seq<byte>)
    requires |q| == 3
    ensures q[0] == SPACE ==> UpToSpace(q) == []
  {
  }

  /** Every space-free string has a name that survives print and parse. */
  lemma SpaceFreeRoundTrip(x: seq<byte>)
    requires SpaceFree(x)
    ensures ToFat(ToStr(ToFat(x))) == ToFat(x)
  {
    var f := ToFat(x);
    assert f[..8] == Field(Base(x), 8) && f[8..] == Field(Ext(x), 3);
    FieldJustified(Base(x), 8);
    FieldJustified(Ext(x), 3);
    FieldsRoundTrip(x);
  }

  lemma FieldJustified(x: seq<byte>, width: nat)
    requires SpaceFree(x)
    ensures LeftJustified(Field(x, width))
  {
  }

  /** A parsed name prints as a string, too. */
  lemma PrintedIsString(x: seq<byte>)
    requires IsCString(x)
    ensures IsCString(ToStr(ToFat(x)))
  {
    var f := ToFat(x);
    FieldNotNul(Base(x), 8);
    FieldNotNul(Ext(x), 3);
    assert forall i :: 0 <= i < 11 ==> f[i] != 0;
  }

  lemma FieldNotNul(x: seq<byte>, width: nat)
    requires IsCString(x)
    ensures IsCString(Field(x, width))
  {
  }

  // The same letter in either case, or the same byte.
  predicate SameLetter(a: byte, b: byte) {
    a == b || (0x61 <= a <= 0x7A && a - b == 32) || (0x61 <= b <= 0x7A && b - a == 32)
  }

  // The same text in any case.
  predicate Alike(x: seq<byte>, y: seq<byte>) {
    |x| == |y| && forall i :: 0 <= i < |x| ==> SameLetter(x[i], y[i])
  }

  lemma AlikeFields(x: seq<byte>, y: seq<byte>, width: nat)
    ensures Alike(x, y) ==> Field(x, width) == Field(y, width)
    ensures |x| <= width && |y| <= width && SpaceFree(x) && SpaceFree(y) && Field(x, width) == Field(y, width) ==>
              Alike(x, y)
  {
    var f, h := Field(x, width), Field(y, width);
    assert forall i :: 0 <= i < |x| && i < width ==> f[i] == Upper(x[i]);
    assert forall i :: 0 <= i < |y| && i < width ==> h[i] == Upper(y[i]);
    if |x| < |y| <= width {
      assert f[|x|] == SPACE;
    } else if |y| < |x| <= width {
      assert h[|y|] == SPACE;
    }
  }

  /** Names that differ only in case are one name: two strings parse to the same directory
      name if their parts in front of the dot and behind it are alike; and only then, when
      the parts fit and hold no space. */
  lemma CaseIgnored(x: seq<byte>, y: seq<byte>)
    ensures Alike(Base(x), Base(y)) && Alike(Ext(x), Ext(y)) ==> ToFat(x) == ToFat(y)
    ensures |Base(x)| <= 8 && |Base(y)| <= 8 && |Ext(x)| <= 3 && |Ext(y)| <= 3 && SpaceFree(x) && SpaceFree(y) ==>
              (ToFat(x) == ToFat(y) <==> Alike(Base(x), Base(y)) && Alike(Ext(x), Ext(y)))
  {
    hide Field, Alike;
    AlikeFields(Base(x), Base(y), 8);
    AlikeFields(Ext(x), Ext(y), 3);
    assert ToFat(x)[..8] == Field(Base(x), 8) && ToFat(x)[8..] == Field(Ext(x), 3);
    assert ToFat(y)[..8] == Field(Base(y), 8) && ToFat(y)[8..] == Field(Ext(y), 3);
  }

  /** "a.b" is "A       B  ": eight bytes in front and three behind, without the dot. */
  lemma CaseExample()
    ensures ToFat([0x61, 0x2E, 0x62]) == [0x41, 0x20, 0x20, 0x20, 0x20, 0x20, 0x20, 0x20, 0x42, 0x20, 0x20]
  {
    var x: seq<byte> := [0x61, 0x2E, 0x62];
    assert IndexOf(x, DOT) == 1;
    assert Base(x) == [0x61] && Ext(x) == [0x62];
  }

  /** No string parses to a name that starts with a dot or with NUL, so the `.` and `..`
      entries of a subdirectory are never matched by a lookup. */
  lemma NeverDotOrNul(x: seq<byte>)
    requires IsCString(x)
    ensures ToFat(x)[0] != DOT && ToFat(x)[0] != 0
  {
    BaseNoDot(x, 0);
    assert ToFat(x)[0] == Field(Base(x), 8)[0];
  }
}
