/** File names: the 8.3 form in a directory entry and the text form in a path. */
module FatNames {
  import opened FatVolume

  const SPACE: byte := 0x20
  const SLASH: byte := 0x2F
  const DOT: byte := 0x2E

  /** Character `i` of a zero-terminated string. */
  function At(path: seq<byte>, i: nat): byte {
    if i < |path| then path[i] else 0
  }

  /** A character that can stand in a name segment. */
  predicate NameChar(c: byte) {
    c > SPACE && c != SLASH && c != DOT
  }

  /** Number of name characters from position `i` on, but at most `max`. */
  function NameRun(path: seq<byte>, i: nat, max: nat): (n: nat)
    ensures n <= max
    ensures forall k :: i <= k < i + n ==> NameChar(At(path, k))
    ensures n < max ==> !NameChar(At(path, i + n))
    decreases max
  {
    if max == 0 || !NameChar(At(path, i)) then 0 else 1 + NameRun(path, i + 1, max - 1)
  }

  /** Upper case; `cvt` is the code page's table for the extended characters 0x80 to 0xFF. */
  function Upper(cvt: seq<byte>, c: byte): byte
    requires |cvt| == 128
  {
    var d := if c >= 0x80 then cvt[c - 0x80] else c;
    if 0x61 <= d <= 0x7A then d - 0x20 else d
  }

  /** A blank-padded name field of `width` bytes that holds the `n` path characters from `i` on. */
  function Field(cvt: seq<byte>, path: seq<byte>, i: nat, n: nat, width: nat): (t: seq<byte>)
    requires |cvt| == 128
    ensures |t| == width
  {
    seq<byte>(width, k requires 0 <= k < width => FieldByte(cvt, path, i, n, k))
  }

  function FieldByte(cvt: seq<byte>, path: seq<byte>, i: nat, n: nat, k: nat): byte
    requires |cvt| == 128
  {
    if k < n then Upper(cvt, At(path, i + k)) else SPACE
  }

  lemma FieldNext(cvt: seq<byte>, path: seq<byte>, i: nat, n: nat, width: nat)
    requires |cvt| == 128 && n < width
    ensures Field(cvt, path, i, n, width)[n := Upper(cvt, At(path, i + n))] == Field(cvt, path, i, n + 1, width)
  {}

  lemma BlankFields(cvt: seq<byte>, path: seq<byte>, i: nat, j: nat)
    requires |cvt| == 128
    ensures forall k :: 0 <= k < 11 ==> (Field(cvt, path, i, 0, 8) + Field(cvt, path, j, 0, 3))[k] == SPACE
  {}

  lemma PutInFields(sfn: seq<byte>, a: seq<byte>, b: seq<byte>, i: nat, x: byte)
    requires |sfn| == 12 && |a| == 8 && |b| == 3 && i < 11 && sfn[..11] == a + b
    ensures sfn[i := x][..11] == if i < 8 then a[i := x] + b else a + b[i - 8 := x]
  {}

  /** A path segment taken apart: where its body and extension stand, and the character after it. */
  datatype Segment = Segment(body: nat, ext: nat, extLen: nat, last: nat)

  function SegmentAt(path: seq<byte>, i: nat): (g: Segment)
    ensures g.last >= i
  {
    var body := NameRun(path, i, 8);
    if At(path, i + body) == DOT then
      var extLen := NameRun(path, i + body + 1, 3);
      Segment(body, i + body + 1, extLen, i + body + 1 + extLen)
    else Segment(body, i + body, 0, i + body)
  }

  /** The twelve bytes of a segment in directory form: body, extension, last-segment flag. */
  function DirForm(cvt: seq<byte>, path: seq<byte>, i: nat): (fn: seq<byte>)
    requires |cvt| == 128
    ensures |fn| == 12
  {
    var g := SegmentAt(path, i);
    Field(cvt, path, i, g.body, 8) + Field(cvt, path, g.ext, g.extLen, 3) + [if At(path, g.last) <= SPACE then 1 else 0]
  }

  /** Pick the segment at `start` and put it in directory form; `next` is the position after the
      segment and the character that ended it. */
  method CreateName(cvt: seq<byte>, path: seq<byte>, start: nat) returns (sfn: seq<byte>, next: nat)
    requires |cvt| == 128
    ensures sfn == DirForm(cvt, path, start)
    ensures next == SegmentAt(path, start).last + 1
  {
    hide Upper, At, Field, NameRun;
    ghost var g := SegmentAt(path, start);
    BlankFields(cvt, path, start, g.ext);
    sfn := seq(12, _ => SPACE);
    var si: nat, i: nat, ni: nat, c: byte := 0, 0, 8, SPACE;
    while true
      invariant |sfn| == 12
      invariant ni == 8 || (ni == 11 && At(path, start + g.body) == DOT)
      invariant if ni == 8 then 0 <= si == i <= g.body else si == g.body + 1 + (i - 8) && 8 <= i <= 8 + g.extLen
      invariant sfn[..11] ==
                Field(cvt, path, start, if ni == 8 then i else g.body, 8)
                + Field(cvt, path, g.ext, if ni == 8 then 0 else i - 8, 3)
      decreases 20 - si
    {
      c := At(path, start + si);
      si := si + 1;
      if c <= SPACE || c == SLASH {
        break;
      }
      if c == DOT || i >= ni {
        if ni != 8 || c != DOT {
          break;
        }
        i, ni := 8, 11;
        continue;
      }
      if ni == 8 {
        FieldNext(cvt, path, start, i, 8);
      } else {
        FieldNext(cvt, path, g.ext, i - 8, 3);
      }
      PutInFields(sfn, Field(cvt, path, start, if ni == 8 then i else g.body, 8),
                  Field(cvt, path, g.ext, if ni == 8 then 0 else i - 8, 3), i, Upper(cvt, c));
      sfn := sfn[i := Upper(cvt, c)];
      i := i + 1;
    }
    next := start + si;
    sfn := sfn[11 := if c <= SPACE then 1 else 0];
  }

  // ---- from directory form to text

  /** Position of the first blank from `i` on, or the end. */
  function BlankAt(s: seq<byte>, i: nat): (r: nat)
    requires i <= |s|
    ensures i <= r <= |s|
    decreases |s| - i
  {
    if i == |s| || s[i] == SPACE then i else BlankAt(s, i + 1)
  }

  lemma {:induction false} BlankIs(s: seq<byte>, i: nat, r: nat)
    requires i <= r <= |s| && (forall k :: i <= k < r ==> s[k] != SPACE)
    requires r < |s| ==> s[r] == SPACE
    ensures BlankAt(s, i) == r
    decreases r - i
  {
    if i < r {
      BlankIs(s, i + 1, r);
    }
  }

  /** The characters of a field before its first blank. */
  function Unpadded(s: seq<byte>): seq<byte> {
    s[..BlankAt(s, 0)]
  }

  /** 0x05 stands for a first byte 0xE5, which marks deleted entries. */
  function Unescaped(s: seq<byte>): (t: seq<byte>)
    ensures |t| == |s|
  {
    seq<byte>(|s|, i requires 0 <= i < |s| => if s[i] == 0x05 then 0xE5 else s[i])
  }

  /** The text form of a directory entry's name. */
  function Text(dir: seq<byte>): seq<byte>
    requires |dir| >= 11
  {
    Unescaped(Unpadded(dir[..8])) + if dir[8] != SPACE then [DOT] + Unpadded(dir[8..11]) else []
  }

  datatype FileInfo = FileInfo(fname: seq<byte>, fattrib: byte, fsize: nat, fdate: nat, ftime: nat)

  /** The information in a directory entry: attribute, size, date and time of the last write. */
  function Info(dir: seq<byte>): FileInfo
    requires |dir| == 32
  {
    FileInfo(Text(dir), dir[11], LittleEndian(dir[28..32]), LittleEndian(dir[24..26]), LittleEndian(dir[22..24]))
  }

  /** The information record of an entry; without an entry (`sect` is 0) only the name is cleared. */
  method GetFileInfo(sect: nat, dir: array<byte>, fno: FileInfo) returns (info: FileInfo)
    requires dir.Length == 32
    ensures info == if sect == 0 then fno.(fname := []) else Info(dir[..])
    ensures sect != 0 ==>
              && info.fsize == (dir[28] as int) + 0x100 * (dir[29] as int) + 0x10000 * (dir[30] as int)
                               + 0x1000000 * (dir[31] as int)
              && info.fdate == (dir[24] as int) + 0x100 * (dir[25] as int)
              && info.ftime == (dir[22] as int) + 0x100 * (dir[23] as int) && info.fattrib == dir[11]
  {
    hide LittleEndian, Text;
    info := fno.(fname := []);
    if sect != 0 {
      var fname := GetFileName(dir[..]);
      var size := LdDword(dir, 28);
      var date := LdWord(dir, 24);
      var time := LdWord(dir, 22);
      assert dir[28..32] == dir[..][28..32] && dir[24..26] == dir[..][24..26] && dir[22..24] == dir[..][22..24];
      LittleEndian4(dir[28..32]);
      LittleEndian2(dir[24..26]);
      LittleEndian2(dir[22..24]);
      info := FileInfo(fname, dir[11], size, date, time);
    }
  }

  /** The name part of the record. */
  method GetFileName(dir: seq<byte>) returns (fname: seq<byte>)
    requires |dir| == 32
    ensures fname == Text(dir)
  {
    fname := [];
    ghost var body, ext := dir[..8], dir[8..11];
    var i := 0;
    while i < 8 && dir[i] != SPACE
      invariant 0 <= i <= 8 && forall k :: 0 <= k < i ==> body[k] != SPACE
      invariant fname == Unescaped(body[..i])
    {
      fname := fname + [if dir[i] == 0x05 then 0xE5 else dir[i]];
      i := i + 1;
      assert body[..i] == body[..i - 1] + [dir[i - 1]];
    }
    BlankIs(body, 0, i);
    if dir[8] != SPACE {
      ghost var front := fname;
      fname := fname + [DOT];
      i := 8;
      while i < 11 && dir[i] != SPACE
        invariant 8 <= i <= 11 && forall k :: 0 <= k < i - 8 ==> ext[k] != SPACE
        invariant fname == front + [DOT] + ext[..i - 8]
      {
        fname := fname + [dir[i]];
        i := i + 1;
        assert ext[..i - 8] == ext[..i - 9] + [dir[i - 1]];
      }
      BlankIs(ext, 0, i - 8);
      assert fname == front + ([DOT] + ext[..i - 8]);
    }
  }

  // ---- the two forms undo each other

  /** Characters that both forms keep: ASCII, upper case, not blank, `.` or `/`. */
  predicate Canonical(s: seq<byte>) {
    forall k :: 0 <= k < |s| ==> NameChar(s[k]) && s[k] < 0x80 && !(0x61 <= s[k] <= 0x7A)
  }

  function Padded(s: seq<byte>, n: nat): (t: seq<byte>)
    requires |s| <= n
    ensures |t| == n
  {
    s + seq<byte>(n - |s|, _ => SPACE)
  }

  function DirName(body: seq<byte>, ext: seq<byte>): (n: seq<byte>)
    requires |body| <= 8 && |ext| <= 3
    ensures |n| == 11
  {
    Padded(body, 8) + Padded(ext, 3)
  }

  function TextName(body: seq<byte>, ext: seq<byte>): seq<byte> {
    body + if ext == [] then [] else [DOT] + ext
  }

  lemma UnpaddedPadded(s: seq<byte>, n: nat)
    requires |s| <= n && Canonical(s)
    ensures Unpadded(Padded(s, n)) == s
  {
    BlankIs(Padded(s, n), 0, |s|);
  }

  /** Text of a canonical directory name. */
  lemma TextOfDirName(body: seq<byte>, ext: seq<byte>, rest: seq<byte>)
    requires Canonical(body) && Canonical(ext) && |body| <= 8 && |ext| <= 3
    ensures Text(DirName(body, ext) + rest) == TextName(body, ext)
  {
    var dir := DirName(body, ext) + rest;
    assert dir[..8] == Padded(body, 8) && dir[8..11] == Padded(ext, 3);
    UnpaddedPadded(body, 8);
    UnpaddedPadded(ext, 3);
    assert Unescaped(body) == body;
    assert ext != [] ==> dir[8] == ext[0];
  }

  /** The text of any entry, byte by byte: `n` and `m` bytes of body and extension before the first blank,
      a dot between them if the extension is not blank, and 0xE5 for 0x05 in the body. */
  lemma TextBytes(dir: seq<byte>, n: nat, m: nat)
    requires |dir| >= 11 && n <= 8 && m <= 3
    requires (forall k :: 0 <= k < n ==> dir[k] != 0x20) && (n < 8 ==> dir[n] == 0x20)
    requires (forall k :: 8 <= k < 8 + m ==> dir[k] != 0x20) && (m < 3 ==> dir[8 + m] == 0x20)
    ensures |Text(dir)| == n + if m == 0 then 0 else 1 + m
    ensures forall k :: 0 <= k < n ==> Text(dir)[k] == if dir[k] == 0x05 then 0xE5 else dir[k]
    ensures m > 0 ==> Text(dir)[n] == 0x2E
    ensures m > 0 ==> Text(dir)[n + 1..] == dir[8..8 + m]
  {
    BlankIs(dir[..8], 0, n);
    BlankIs(dir[8..11], 0, m);
    hide BlankAt;
    assert m > 0 <==> dir[8] != SPACE;
  }

  lemma {:induction false} RunIs(path: seq<byte>, i: nat, max: nat, n: nat)
    requires n <= max && forall k :: i <= k < i + n ==> NameChar(At(path, k))
    requires n < max ==> !NameChar(At(path, i + n))
    ensures NameRun(path, i, max) == n
    decreases max
  {
    if n > 0 {
      RunIs(path, i + 1, max - 1, n - 1);
    }
  }

  // ---- which names are picked whole

  predicate Separator(c: byte) {
    c <= SPACE || c == SLASH
  }

  /** Where the path segment that contains position `i` ends: at the next blank, control character or slash. */
  function SegmentEnd(path: seq<byte>, i: nat): (e: nat)
    ensures i <= e && Separator(At(path, e))
    ensures forall k :: i <= k < e ==> !Separator(At(path, k))
    decreases if i <= |path| then |path| - i else 0
  {
    if Separator(At(path, i)) then i else SegmentEnd(path, i + 1)
  }

  /** The first dot from `i` on, or the end `e` of the segment. */
  function DotOrEnd(path: seq<byte>, i: nat, e: nat): (j: nat)
    requires i <= e
    ensures i <= j <= e && (j < e ==> At(path, j) == DOT)
    ensures forall k :: i <= k < j ==> At(path, k) != DOT
    decreases e - i
  {
    if i == e || At(path, i) == DOT then i else DotOrEnd(path, i + 1, e)
  }

  /** The segment is an 8.3 name: at most eight characters, and at most three more behind the only dot. */
  predicate EightThree(path: seq<byte>, i: nat) {
    var e := SegmentEnd(path, i);
    var j := DotOrEnd(path, i, e);
    && j - i <= 8
    && (j < e ==> e - j <= 4 && DotOrEnd(path, j + 1, e) == e)
  }

  /** Name characters up to a dot or the end of the segment. */
  lemma RunToDot(path: seq<byte>, i: nat, e: nat, max: nat)
    requires i <= e && Separator(At(path, e)) && forall k :: i <= k < e ==> !Separator(At(path, k))
    ensures var j := DotOrEnd(path, i, e);
            NameRun(path, i, max) == if j - i <= max then j - i else max
  {
    var j := DotOrEnd(path, i, e);
    hide DotOrEnd, At;
    RunIs(path, i, max, if j - i <= max then j - i else max);
  }

  /** A segment is picked whole exactly if it is an 8.3 name. Any other is cut before its end: the character
      that does not fit is dropped, and the next segment starts behind it. */
  lemma PickedWhole(path: seq<byte>, i: nat)
    ensures SegmentAt(path, i).last == SegmentEnd(path, i) <==> EightThree(path, i)
    ensures !EightThree(path, i) ==>
              var last := SegmentAt(path, i).last; last < SegmentEnd(path, i) && !Separator(At(path, last))
  {
    hide NameRun, SegmentEnd, DotOrEnd, At;
    var e := SegmentEnd(path, i);
    var j := DotOrEnd(path, i, e);
    RunToDot(path, i, e, 8);
    if j < e {
      RunToDot(path, j + 1, e, 3);
    }
  }

  const TEN: seq<byte> := [0x41, 0x42, 0x43, 0x44, 0x45, 0x46, 0x47, 0x48, 0x49, 0x4A]

  lemma TenSegments()
    ensures SegmentAt(TEN, 0) == Segment(8, 8, 0, 8) && SegmentAt(TEN, 9) == Segment(1, 10, 0, 10)
  {
    hide NameRun;
    RunIs(TEN, 0, 8, 8);
    RunIs(TEN, 9, 8, 1);
  }

  /** Of the ten characters of "ABCDEFGHIJ" the ninth is dropped: the segments are "ABCDEFGH" and "J", and
      the first is not taken for the last. */
  lemma TenCharacters(cvt: seq<byte>)
    requires |cvt| == 128
    ensures SegmentAt(TEN, 0).last + 1 == 9 && !EightThree(TEN, 0)
    ensures DirForm(cvt, TEN, 0) == DirName(TEN[..8], []) + [0] && DirForm(cvt, TEN, 9) == DirName(TEN[9..], []) + [1]
  {
    hide Field, NameRun, EightThree, SegmentAt;
    TenSegments();
    NotBefore(TEN, 0, 10);
    PickedWhole(TEN, 0);
    FieldIsPadded(cvt, TEN, 0, TEN[..8], 8);
    FieldIsPadded(cvt, TEN, 8, [], 3);
    FieldIsPadded(cvt, TEN, 9, TEN[9..], 8);
    FieldIsPadded(cvt, TEN, 10, [], 3);
  }

  lemma NotBefore(path: seq<byte>, i: nat, n: nat)
    requires i <= n && forall k :: i <= k < n ==> !Separator(At(path, k))
    ensures SegmentEnd(path, i) >= n
  {
    hide At;
  }

  lemma FieldIsPadded(cvt: seq<byte>, path: seq<byte>, i: nat, s: seq<byte>, width: nat)
    requires |cvt| == 128 && Canonical(s) && |s| <= width
    requires forall k :: i <= k < i + |s| ==> At(path, k) == s[k - i]
    ensures Field(cvt, path, i, |s|, width) == Padded(s, width)
  {}

  /** A canonical name, written as text anywhere in a path, comes back in directory form; the flag says
      whether the path ends there. */
  lemma DirFormOfText(cvt: seq<byte>, pre: seq<byte>, body: seq<byte>, ext: seq<byte>, tail: seq<byte>)
    requires |cvt| == 128 && Canonical(body) && Canonical(ext) && 1 <= |body| <= 8 && |ext| <= 3
    requires At(tail, 0) <= SPACE || At(tail, 0) == SLASH
    ensures var path := pre + TextName(body, ext) + tail;
            && DirForm(cvt, path, |pre|) == DirName(body, ext) + [if At(tail, 0) <= SPACE then 1 else 0]
            && SegmentAt(path, |pre|).last == |pre| + |TextName(body, ext)|
  {
    hide At, Field, NameRun, Upper;
    var path := pre + TextName(body, ext) + tail;
    var i, j := |pre|, |pre| + |body|;
    PathChars(pre, body, ext, tail);
    RunIs(path, i, 8, |body|);
    FieldIsPadded(cvt, path, i, body, 8);
    if ext != [] {
      RunIs(path, j + 1, 3, |ext|);
      FieldIsPadded(cvt, path, j + 1, ext, 3);
    } else {
      FieldIsPadded(cvt, path, j, ext, 3);
    }
  }

  lemma PathChars(pre: seq<byte>, body: seq<byte>, ext: seq<byte>, tail: seq<byte>)
    ensures var path := pre + TextName(body, ext) + tail;
            && (forall k :: |pre| <= k < |pre| + |body| ==> At(path, k) == body[k - |pre|])
            && (ext != [] ==> At(path, |pre| + |body|) == DOT)
            && (ext != [] ==> var j := |pre| + |body| + 1; forall k :: j <= k < j + |ext| ==> At(path, k) == ext[k - j])
            && At(path, |pre| + |TextName(body, ext)|) == At(tail, 0)
  {}

  // ---- the directory form, byte by byte

  /** No blank, control character, dot or slash; lower case and extended characters are allowed. */
  predicate Plain(s: seq<byte>) {
    forall k :: 0 <= k < |s| ==> s[k] > 0x20 && s[k] != 0x2E && s[k] != 0x2F
  }

  /** A field holds `s`: lower case is raised, extended characters go through `cvt` first, and any other
      character is itself. Blanks follow. */
  predicate Holds(field: seq<byte>, cvt: seq<byte>, s: seq<byte>)
    requires |cvt| == 128 && |s| <= |field|
  {
    && (forall k :: 0 <= k < |s| && 0x61 <= s[k] <= 0x7A ==> field[k] == s[k] - 0x20)
    && (forall k :: 0 <= k < |s| && s[k] < 0x80 && !(0x61 <= s[k] <= 0x7A) ==> field[k] == s[k])
    && (forall k :: 0 <= k < |s| && s[k] >= 0x80 ==>
          var d := cvt[s[k] - 0x80];
          field[k] == if 0x61 <= d <= 0x7A then d - 0x20 else d)
    && (forall k :: |s| <= k < |field| ==> field[k] == 0x20)
  }

  lemma FieldHolds(cvt: seq<byte>, path: seq<byte>, i: nat, s: seq<byte>, width: nat)
    requires |cvt| == 128 && |s| <= width
    requires forall k :: i <= k < i + |s| ==> At(path, k) == s[k - i]
    ensures Holds(Field(cvt, path, i, |s|, width), cvt, s)
  {
    forall k | 0 <= k < |s|
      ensures At(path, i + k) == s[k]
    {}
  }

  /** The fields of a name that is written anywhere in a path. */
  lemma DirFormFields(cvt: seq<byte>, pre: seq<byte>, body: seq<byte>, ext: seq<byte>, tail: seq<byte>)
    requires |cvt| == 128 && Plain(body) && Plain(ext) && 1 <= |body| <= 8 && |ext| <= 3
    requires At(tail, 0) <= SPACE || At(tail, 0) == SLASH
    ensures var path := pre + TextName(body, ext) + tail;
            var i, j := |pre|, |pre| + |body| + if ext == [] then 0 else 1;
            && SegmentAt(path, i) == Segment(|body|, j, |ext|, j + |ext|)
            && At(path, j + |ext|) == At(tail, 0)
            && Holds(Field(cvt, path, i, |body|, 8), cvt, body) && Holds(Field(cvt, path, j, |ext|, 3), cvt, ext)
  {
    hide At, Field, NameRun, Holds;
    var path := pre + TextName(body, ext) + tail;
    var i, j := |pre|, |pre| + |body|;
    PathChars(pre, body, ext, tail);
    RunIs(path, i, 8, |body|);
    FieldHolds(cvt, path, i, body, 8);
    if ext != [] {
      RunIs(path, j + 1, 3, |ext|);
      FieldHolds(cvt, path, j + 1, ext, 3);
    } else {
      FieldHolds(cvt, path, j, ext, 3);
    }
  }

  /** A name in letters of either case, with an extension or without, written anywhere in a path: the eight
      bytes of the body, the three of the extension, the flag, and the position after the separator. */
  lemma DirFormBytes(cvt: seq<byte>, pre: seq<byte>, body: seq<byte>, ext: seq<byte>, tail: seq<byte>)
    requires |cvt| == 128 && Plain(body) && Plain(ext) && 1 <= |body| <= 8 && |ext| <= 3
    requires tail == [] || tail[0] <= 0x20 || tail[0] == 0x2F
    ensures var path := pre + body + (if ext == [] then [] else [0x2E] + ext) + tail;
            var fn := DirForm(cvt, path, |pre|);
            && Holds(fn[..8], cvt, body) && Holds(fn[8..11], cvt, ext)
            && fn[11] == (if tail == [] || tail[0] <= 0x20 then 1 else 0)
            && SegmentAt(path, |pre|).last == |pre| + |body| + if ext == [] then 0 else 1 + |ext|
  {
    hide Field, NameRun, SegmentAt, Holds, Plain;
    DirFormFields(cvt, pre, body, ext, tail);
    var path := pre + TextName(body, ext) + tail;
    assert path == pre + body + (if ext == [] then [] else [0x2E] + ext) + tail;
    var i, j := |pre|, |pre| + |body| + if ext == [] then 0 else 1;
    var f, g := Field(cvt, path, i, |body|, 8), Field(cvt, path, j, |ext|, 3);
    Apart(f, g, if At(path, j + |ext|) <= SPACE then 1 else 0);
  }

  lemma Apart(f: seq<byte>, g: seq<byte>, x: byte)
    requires |f| == 8 && |g| == 3
    ensures (f + g + [x])[..8] == f && (f + g + [x])[8..11] == g && (f + g + [x])[11] == x
  {}

  /** The path "boot.bin", and the name that its directory entry has. */
  const BOOT_PATH: seq<byte> := [0x62, 0x6F, 0x6F, 0x74, 0x2E, 0x62, 0x69, 0x6E]
  const BOOT_NAME: seq<byte> := [0x42, 0x4F, 0x4F, 0x54, 0x20, 0x20, 0x20, 0x20, 0x42, 0x49, 0x4E]

  /** The path that the bootloader opens, alone or behind other segments, leads to the entry "BOOT    BIN",
      and its last segment ends there. */
  lemma BootName(cvt: seq<byte>, pre: seq<byte>)
    requires |cvt| == 128
    ensures var path := pre + BOOT_PATH;
            DirForm(cvt, path, |pre|) == BOOT_NAME + [1] && SegmentAt(path, |pre|).last == |path|
  {
    hide DirForm, SegmentAt;
    var body, ext := BOOT_PATH[..4], BOOT_PATH[5..];
    assert pre + BOOT_PATH == pre + body + ([0x2E] + ext) + [];
    DirFormBytes(cvt, pre, body, ext, []);
    var fn := DirForm(cvt, pre + BOOT_PATH, |pre|);
    assert fn == fn[..8] + fn[8..11] + [fn[11]];
  }
}
