/**
 * The Shift-JIS aware string and path utilities of RK_FUNCTION.
 *
 * A C string lives in a byte buffer and ends at its first NUL; `Str` is its
 * content. Functions that change a string in place are methods on the
 * buffer whose contract gives the new content as a function of the old;
 * functions that only read a string take its content.
 *
 * A Shift-JIS lead byte (0x80..0x9F, 0xE0..0xFF) starts a two-byte
 * character; the scans step over the byte after it, so only the bytes the
 * walk from the start lands on (`StepsOn`) are characters of their own.
 */
module RkFunction {
  import opened Bytes

  const Nul: byte := 0x00
  const Tab: byte := 0x09
  const Space: byte := 0x20
  const Quote: byte := 0x22
  const Dot: byte := 0x2E
  const Backslash: byte := 0x5C

  // ---------------------------------------------------------------- C strings

  /** `strlen`: the index of the first NUL, or the buffer length when there is none. */
  function CLen(s: seq<byte>): (n: nat)
    ensures n <= |s| && (n < |s| ==> s[n] == 0)
    ensures forall i :: 0 <= i < n ==> s[i] != 0
  {
    if s == [] || s[0] == 0 then 0 else 1 + CLen(s[1..])
  }

  /** The buffer holds a NUL-terminated string. */
  predicate IsCString(s: seq<byte>) {
    CLen(s) < |s|
  }

  /** The content of the C string in a buffer. */
  function Str(s: seq<byte>): (t: seq<byte>)
    ensures NoNul(t)
  {
    s[..CLen(s)]
  }

  predicate NoNul(t: seq<byte>) {
    forall i :: 0 <= i < |t| ==> t[i] != 0
  }

  /** A buffer that holds t followed by a NUL holds the C string t. */
  lemma StrIs(s: seq<byte>, t: seq<byte>)
    requires |t| < |s| && s[..|t|] == t && s[|t|] == 0 && NoNul(t)
    ensures IsCString(s) && Str(s) == t
  {
  }

  /** `strlen` as a loop. */
  method StrLen(buf: array<byte>) returns (n: nat)
    requires IsCString(buf[..])
    ensures n == CLen(buf[..]) && n < buf.Length
  {
    n := 0;
    while buf[n] != 0
      invariant n <= CLen(buf[..])
      decreases CLen(buf[..]) - n
    {
      n := n + 1;
    }
  }

  /** The copy loop that moves the string's bytes from `from` on to the start of the buffer, NUL included. */
  method MoveToFront(buf: array<byte>, from: nat, len: nat)
    requires from <= len < buf.Length && buf[len] == 0
    requires forall i :: from <= i < len ==> buf[i] != 0
    modifies buf
    ensures buf[..len - from] == old(buf[from..len]) && buf[len - from] == 0
  {
    var src, dst := from, 0;
    while buf[src] != 0
      invariant from <= src <= len && src == from + dst
      invariant buf[..dst] == old(buf[from..src])
      invariant buf[src..] == old(buf[src..])
      decreases len - src
    {
      buf[dst] := buf[src];
      dst, src := dst + 1, src + 1;
    }
    buf[dst] := 0;
  }

  // ---------------------------------------------------------------- Shift-JIS

  /** A Shift-JIS lead byte. */
  predicate IsLead(b: byte) {
    (0x80 <= b <= 0x9F) || (0xE0 <= b <= 0xFF)
  }

  /** `RK_CheckSJIS`: 1 exactly for a lead byte, judged on the low byte of ch. */
  function CheckSjis(ch: int): (r: int)
    ensures r == 0 || r == 1
    ensures r == 1 <==> (0x80 <= LowByte(ch) <= 0x9F || 0xE0 <= LowByte(ch) <= 0xFF)
  {
    if IsLead(LowByte(ch)) then 1 else 0
  }

  lemma LowByteOfByte(b: byte)
    ensures LowByte(b) == b
  {
  }

  /** `RK_CheckStringSJIS`: 1 exactly when the string holds a lead byte; 0 for a null pointer. */
  method CheckStringSjis(str: Option<seq<byte>>) returns (r: int)
    ensures r == 0 || r == 1
    ensures r == 1 <==> str.Some? && exists i :: 0 <= i < |str.value| && IsLead(str.value[i])
  {
    if str.None? {
      return 0;
    }
    var s := str.value;
    var i := 0;
    while i < |s|
      invariant 0 <= i <= |s|
      invariant forall j :: 0 <= j < i ==> !IsLead(s[j])
    {
      LowByteOfByte(s[i]);
      if CheckSjis(s[i]) == 1 {
        return 1;
      }
      i := i + 1;
    }
    return 0;
  }

  /** Where the character starting at i ends: two bytes after a lead byte, else one. */
  function NextChar(s: seq<byte>, i: nat): nat
    requires i < |s|
  {
    if IsLead(s[i]) then i + 2 else i + 1
  }

  /** The walk from i, one character at a time, lands on k. */
  predicate StepsOn(s: seq<byte>, i: nat, k: nat)
    decreases k - i
  {
    i == k || (i < k && i < |s| && StepsOn(s, NextChar(s, i), k))
  }

  /** Byte k of s is a one-byte character equal to c. */
  predicate SingleAt(s: seq<byte>, k: nat, c: byte) {
    k < |s| && StepsOn(s, 0, k) && !IsLead(s[k]) && s[k] == c
  }

  /** The walk over s ends exactly at its end, not in the middle of a two-byte character. */
  predicate EndsOnBoundary(s: seq<byte>) {
    StepsOn(s, 0, |s|)
  }

  /** Whether the walk lands on k does not depend on bytes at or after k. */
  lemma {:induction false} StepsOnPrefix(s: seq<byte>, t: seq<byte>, i: nat, k: nat)
    requires k <= |s|
    ensures StepsOn(s + t, i, k) == StepsOn(s, i, k)
    decreases k - i
  {
    if i < k {
      assert (s + t)[i] == s[i];
      StepsOnPrefix(s, t, NextChar(s, i), k);
    }
  }

  /**
   * The scan loop shared by the path functions: walking from i, the last
   * one-byte character equal to c, or last if there is none.
   */
  function LastFrom(s: seq<byte>, i: nat, c: byte, last: int): int
    decreases |s| + 1 - i
  {
    if i >= |s| then last
    else LastFrom(s, NextChar(s, i), c, if !IsLead(s[i]) && s[i] == c then i else last)
  }

  /** The scan from i finds the last one-byte c on the walk from i, or keeps last. */
  lemma {:induction false} LastFromProps(s: seq<byte>, i: nat, c: byte, last: int)
    ensures var r := LastFrom(s, i, c, last);
            (r == last || (i <= r < |s| && StepsOn(s, i, r) && !IsLead(s[r]) && s[r] == c)) &&
            forall k :: i <= k < |s| && StepsOn(s, i, k) && !IsLead(s[k]) && s[k] == c ==> k <= r
    decreases |s| + 1 - i
  {
    if i < |s| {
      var next := NextChar(s, i);
      var last' := if !IsLead(s[i]) && s[i] == c then i else last;
      LastFromProps(s, next, c, last');
      var r := LastFrom(s, i, c, last);
      forall k | i <= k < |s| && StepsOn(s, i, k) && !IsLead(s[k]) && s[k] == c
        ensures k <= r
      {
        if k != i {
          assert StepsOn(s, next, k);
        }
      }
    }
  }

  /** The last one-byte character c of s, or init when there is none. */
  function LastSingle(s: seq<byte>, c: byte, init: int): int {
    LastFrom(s, 0, c, init)
  }

  /** For a negative init, `LastSingle` is init without a one-byte c, else the position of the last one. */
  lemma LastSingleSpec(s: seq<byte>, c: byte, init: int)
    requires init < 0
    ensures var r := LastSingle(s, c, init);
            (r == init && forall k: nat :: !SingleAt(s, k, c)) ||
            (0 <= r && SingleAt(s, r, c) && forall k: nat :: SingleAt(s, k, c) ==> k <= r)
  {
    LastFromProps(s, 0, c, init);
  }

  /** The character-by-character scan for the last one-byte c. */
  method ScanLastSingle(s: seq<byte>, c: byte, init: int) returns (last: int)
    ensures last == LastSingle(s, c, init)
  {
    last := init;
    var i := 0;
    while i < |s|
      invariant LastFrom(s, i, c, last) == LastSingle(s, c, init)
      decreases |s| + 1 - i
    {
      LowByteOfByte(s[i]);
      if CheckSjis(s[i]) == 1 {
        i := i + 2;
        continue;
      }
      if s[i] == c {
        last := i;
      }
      i := i + 1;
    }
  }

  // ---------------------------------------------------------------- trailing backslash

  /** `RK_CheckLastRoot`: 1 exactly when the path is non-empty and ends with a backslash. */
  function CheckLastRoot(path: Option<seq<byte>>): (r: int)
    ensures r == 0 || r == 1
    ensures r == 1 <==> path.Some? && |path.value| > 0 && path.value[|path.value| - 1] == Backslash
  {
    if path.None? then 0
    else if |path.value| == 0 then 0
    else if path.value[|path.value| - 1] == Backslash then 1 else 0
  }

  /** The content `RK_CutLastRoot` leaves: without the last byte when the scan's last backslash is the last byte. */
  function CutLastRootOf(s: seq<byte>): seq<byte> {
    if s == [] then s
    else if LastSingle(s, Backslash, -2) == |s| - 1 then s[..|s| - 1]
    else s
  }

  /** `RK_CutLastRoot` removes the final byte exactly when it is a backslash of its own, not the second byte of a two-byte character. */
  lemma CutLastRootRef(s: seq<byte>)
    ensures CutLastRootOf(s) == if s != [] && SingleAt(s, |s| - 1, Backslash) then s[..|s| - 1] else s
  {
    if s != [] {
      LastSingleSpec(s, Backslash, -2);
    }
  }

  /** The content `RK_SetLastRoot` leaves: a backslash is appended unless the path is empty or has one. */
  function SetLastRootOf(s: seq<byte>): seq<byte> {
    if s == [] || s[|s| - 1] == Backslash then s else s + [Backslash]
  }

  /** After `RK_SetLastRoot` a non-empty path ends with a backslash, and a second call changes nothing. */
  lemma SetLastRootProps(s: seq<byte>)
    ensures CheckLastRoot(Some(SetLastRootOf(s))) == if s == [] then 0 else 1
    ensures SetLastRootOf(SetLastRootOf(s)) == SetLastRootOf(s)
    ensures s == [] ==> SetLastRootOf(s) == []
  {
  }

  /**
   * Cutting the backslash that `RK_SetLastRoot` added gives the path back
   * exactly when the path does not end in a lone lead byte; otherwise the
   * added backslash is read as the second byte of a character and stays.
   */
  lemma CutUndoesSet(s: seq<byte>)
    requires s != [] && s[|s| - 1] != Backslash
    ensures CutLastRootOf(SetLastRootOf(s)) == s <==> EndsOnBoundary(s)
  {
    var u := s + [Backslash];
    CutLastRootRef(u);
    StepsOnPrefix(s, [Backslash], 0, |s|);
    assert u[..|s|] == s;
  }

  /** `RK_CutLastRoot` on a NUL-terminated buffer; a null pointer is ignored. */
  method CutLastRoot(path: array?<byte>)
    requires path != null ==> IsCString(path[..])
    modifies path
    ensures path != null ==> IsCString(path[..]) && Str(path[..]) == CutLastRootOf(old(Str(path[..])))
  {
    if path == null {
      return;
    }
    var len := StrLen(path);
    if len == 0 {
      return;
    }
    ghost var s := path[..len];
    var lastSlash := ScanLastSingle(path[..len], Backslash, -2);
    if lastSlash == len - 1 {
      path[len - 1] := 0;
      StrIs(path[..], s[..len - 1]);
    }
  }

  /** `RK_SetLastRoot` on a buffer with room for the added backslash; a null pointer is ignored. */
  method SetLastRoot(path: array?<byte>)
    requires path != null ==> IsCString(path[..])
    requires path != null ==> var s := Str(path[..]); s == [] || s[|s| - 1] == Backslash || |s| + 2 <= path.Length
    modifies path
    ensures path != null ==> IsCString(path[..]) && Str(path[..]) == SetLastRootOf(old(Str(path[..])))
  {
    if path == null {
      return;
    }
    var len := StrLen(path);
    if len == 0 {
      return;
    }
    ghost var s := path[..len];
    if path[len - 1] != Backslash {
      path[len] := Backslash;
      path[len + 1] := 0;
      StrIs(path[..], s + [Backslash]);
    }
  }

  // ---------------------------------------------------------------- directory and file name

  /** The content `RK_CutFilenameFromFullPath` leaves: everything up to and including the last backslash. */
  function CutFilenameOf(s: seq<byte>): seq<byte> {
    if s == [] then s
    else
      var k := LastSingle(s, Backslash, -1);
      if 0 <= k < |s| then s[..k + 1] else s
  }

  /** The content `RK_CutDirectoryFromFullPath` leaves: everything after the last backslash. */
  function CutDirectoryOf(s: seq<byte>): seq<byte> {
    if s == [] then s
    else
      var k := LastSingle(s, Backslash, -1);
      if 0 <= k < |s| then s[k + 1..] else s
  }

  /**
   * With a backslash of its own in the path, the directory part ends with
   * it and directory part followed by file name is the path; without one,
   * both functions leave the path as it is.
   */
  lemma DirectoryFileSplit(s: seq<byte>)
    ensures (exists k: nat :: SingleAt(s, k, Backslash)) ==>
              CutFilenameOf(s) + CutDirectoryOf(s) == s &&
              CutFilenameOf(s) != [] && CutFilenameOf(s)[|CutFilenameOf(s)| - 1] == Backslash
    ensures (forall k: nat :: !SingleAt(s, k, Backslash)) ==> CutFilenameOf(s) == s && CutDirectoryOf(s) == s
  {
    if exists k: nat :: SingleAt(s, k, Backslash) {
      SplitAtLastBackslash(s);
    } else {
      LastSingleSpec(s, Backslash, -1);
    }
  }

  /** The split of `DirectoryFileSplit` when the path has a backslash of its own. */
  lemma SplitAtLastBackslash(s: seq<byte>)
    requires exists k: nat :: SingleAt(s, k, Backslash)
    ensures CutFilenameOf(s) + CutDirectoryOf(s) == s
    ensures CutFilenameOf(s) != [] && CutFilenameOf(s)[|CutFilenameOf(s)| - 1] == Backslash
  {
    var k: nat :| SingleAt(s, k, Backslash);
    var r := LastSingle(s, Backslash, -1);
    LastSingleSpec(s, Backslash, -1);
    assert 0 <= r && SingleAt(s, r, Backslash);
    assert CutFilenameOf(s) == s[..r + 1] && CutDirectoryOf(s) == s[r + 1..];
    assert s[..r + 1] + s[r + 1..] == s;
  }

  /** `RK_CutFilenameFromFullPath` on a buffer: a NUL is written after the last backslash. */
  method CutFilenameFromFullPath(fullPath: array?<byte>)
    requires fullPath != null ==> IsCString(fullPath[..])
    modifies fullPath
    ensures fullPath != null ==> IsCString(fullPath[..]) && Str(fullPath[..]) == CutFilenameOf(old(Str(fullPath[..])))
  {
    if fullPath == null {
      return;
    }
    var len := StrLen(fullPath);
    if len == 0 {
      return;
    }
    ghost var s := fullPath[..len];
    var lastSlash := ScanLastSingle(fullPath[..len], Backslash, -1);
    LastSingleSpec(s, Backslash, -1);
    if lastSlash >= 0 {
      fullPath[lastSlash + 1] := 0;
      StrIs(fullPath[..], s[..lastSlash + 1]);
    }
  }

  /** `RK_CutDirectoryFromFullPath` on a buffer: the part after the last backslash moves to the start. */
  method CutDirectoryFromFullPath(path: array?<byte>)
    requires path != null ==> IsCString(path[..])
    modifies path
    ensures path != null ==> IsCString(path[..]) && Str(path[..]) == CutDirectoryOf(old(Str(path[..])))
  {
    if path == null || path[0] == 0 {
      return;
    }
    var len := StrLen(path);
    ghost var s := path[..len];
    var lastSlash := ScanLastSingle(path[..len], Backslash, -1);
    LastSingleSpec(s, Backslash, -1);
    if lastSlash >= 0 {
      MoveToFront(path, lastSlash + 1, len);
      StrIs(path[..], s[lastSlash + 1..]);
    }
  }

  /** The copy loop of `RK_MesDefineSet` that moves the string and its NUL one byte to the right. */
  method MoveRightOne(buf: array<byte>, len: nat)
    requires len + 1 < buf.Length
    modifies buf
    ensures buf[0] == old(buf[0])
    ensures buf[1..len + 2] == old(buf[..len + 1])
    ensures buf[len + 2..] == old(buf[len + 2..])
  {
    var i := len + 1;
    while i > 0
      invariant 0 <= i <= len + 1
      invariant forall k :: i < k <= len + 1 ==> buf[k] == old(buf[k - 1])
      invariant forall k :: 0 <= k <= i ==> buf[k] == old(buf[k])
      invariant buf[len + 2..] == old(buf[len + 2..])
    {
      buf[i] := buf[i - 1];
      i := i - 1;
    }
  }

  // ---------------------------------------------------------------- comparison

  /** The ASCII case folding of `RK_StringsCompare`. */
  function Fold(b: byte, caseInsensitive: int): byte {
    if caseInsensitive != 0 && 'A' as byte <= b <= 'Z' as byte then b + 0x20 else b
  }

  /**
   * The comparison loop from a pair of positions: a two-byte character is
   * compared byte by byte, any other byte after case folding but ordered
   * by its raw value; running out of the second string counts as equal.
   */
  function CompareFrom(a: seq<byte>, b: seq<byte>, caseInsensitive: int): (r: int)
    ensures r == -1 || r == 1
    decreases |a|
  {
    if a == [] || b == [] then 1
    else if IsLead(a[0]) then
      if a[0] < b[0] then -1
      else if a[0] > b[0] then 1
      else if |a| == 1 || |b| == 1 then 1
      else if a[1] < b[1] then -1
      else if a[1] > b[1] then 1
      else CompareFrom(a[2..], b[2..], caseInsensitive)
    else if Fold(a[0], caseInsensitive) != Fold(b[0], caseInsensitive) then
      if a[0] < b[0] then -1 else 1
    else CompareFrom(a[1..], b[1..], caseInsensitive)
  }

  /** The state inside the byte-by-byte loop over a two-byte character, with k of its bytes left. */
  function PairFrom(a: seq<byte>, b: seq<byte>, k: nat, caseInsensitive: int): int
    decreases k
  {
    if k == 0 || a == [] || b == [] then CompareFrom(a, b, caseInsensitive)
    else if a[0] < b[0] then -1
    else if a[0] > b[0] then 1
    else PairFrom(a[1..], b[1..], k - 1, caseInsensitive)
  }

  /** `RK_StringsCompare`: 0 for an empty first string, else the comparison loop's verdict. */
  function StringsCompareOf(s1: seq<byte>, s2: seq<byte>, caseInsensitive: int): (r: int)
    ensures r == 0 <==> s1 == []
    ensures r == -1 || r == 0 || r == 1
  {
    if s1 == [] then 0 else CompareFrom(s1, s2, caseInsensitive)
  }

  /** `RK_StringsCompare` as the loop over both strings. */
  method StringsCompare(s1: seq<byte>, s2: seq<byte>, caseInsensitive: int) returns (r: int)
    ensures r == StringsCompareOf(s1, s2, caseInsensitive)
  {
    if |s1| == 0 {
      return 0;
    }
    var i := 0;
    while i < |s1|
      invariant i <= |s1| && i <= |s2|
      invariant CompareFrom(s1[i..], s2[i..], caseInsensitive) == CompareFrom(s1, s2, caseInsensitive)
      decreases |s1| - i
    {
      if i == |s2| {
        return 1;
      }
      LowByteOfByte(s1[i]);
      if CheckSjis(s1[i]) == 1 {
        ghost var i0 := i;
        var j := 0;
        while j < 2 && i < |s1| && i < |s2|
          invariant 0 <= j <= 2 && i <= |s1| && i <= |s2| && i == i0 + j
          invariant PairFrom(s1[i..], s2[i..], 2 - j, caseInsensitive) == CompareFrom(s1, s2, caseInsensitive)
          decreases 2 - j
        {
          if s1[i] < s2[i] {
            return -1;
          }
          if s1[i] > s2[i] {
            return 1;
          }
          i, j := i + 1, j + 1;
        }
      } else {
        var c1, c2 := Fold(s1[i], caseInsensitive), Fold(s2[i], caseInsensitive);
        if c1 != c2 {
          if s1[i] < s2[i] {
            return -1;
          }
          return 1;
        }
        i := i + 1;
      }
    }
    return 1;
  }

  /** A non-empty string compares as equal (1) to itself and to every prefix of itself. */
  lemma {:induction false} CompareWithPrefix(s1: seq<byte>, s2: seq<byte>, caseInsensitive: int)
    requires s1 != [] && s2 <= s1
    ensures StringsCompareOf(s1, s2, caseInsensitive) == 1
  {
    CompareFromPrefix(s1, s2, caseInsensitive);
  }

  lemma {:induction false} CompareFromPrefix(a: seq<byte>, b: seq<byte>, caseInsensitive: int)
    requires b <= a
    ensures CompareFrom(a, b, caseInsensitive) == 1
    decreases |a|
  {
    if a != [] && b != [] {
      if IsLead(a[0]) {
        if |a| > 1 && |b| > 1 {
          assert b[2..] <= a[2..];
          CompareFromPrefix(a[2..], b[2..], caseInsensitive);
        }
      } else {
        assert b[1..] <= a[1..];
        CompareFromPrefix(a[1..], b[1..], caseInsensitive);
      }
    }
  }

  /** A to Z replaced by a to z. */
  function ToLower(s: seq<byte>): (r: seq<byte>)
    ensures |r| == |s|
    ensures forall i :: 0 <= i < |s| ==> r[i] == Fold(s[i], 1)
  {
    if s == [] then [] else [Fold(s[0], 1)] + ToLower(s[1..])
  }

  /** Without two-byte characters, a case-insensitive comparison does not tell a string from its lower-case form. */
  lemma {:induction false} CompareIgnoresCase(s: seq<byte>, caseInsensitive: int)
    requires caseInsensitive != 0 && s != []
    requires forall i :: 0 <= i < |s| ==> !IsLead(s[i])
    ensures StringsCompareOf(s, ToLower(s), caseInsensitive) == 1
    ensures StringsCompareOf(ToLower(s), s, caseInsensitive) == 1
    decreases |s|
  {
    var t := ToLower(s);
    assert !IsLead(t[0]);
    assert Fold(s[0], caseInsensitive) == Fold(t[0], caseInsensitive);
    assert CompareFrom(s, t, caseInsensitive) == CompareFrom(s[1..], t[1..], caseInsensitive);
    assert CompareFrom(t, s, caseInsensitive) == CompareFrom(t[1..], s[1..], caseInsensitive);
    if |s| > 1 {
      assert ToLower(s[1..]) == t[1..];
      CompareIgnoresCase(s[1..], caseInsensitive);
    }
  }

  // ---------------------------------------------------------------- blanks

  predicate IsBlank(b: byte) {
    b == Space || b == Tab
  }

  /** Mode 0 of `RK_DeleteTabSpaceString`: the leading blanks go. */
  function StripLeading(s: seq<byte>): seq<byte>
  {
    if s != [] && IsBlank(s[0]) then StripLeading(s[1..]) else s
  }

  /** Mode 0 leaves a suffix that does not start with a blank, and only blanks go. */
  lemma {:induction false} StripLeadingProps(s: seq<byte>)
    ensures var r := StripLeading(s);
            |r| <= |s| && r == s[|s| - |r|..] && (r == [] || !IsBlank(r[0])) &&
            forall i :: 0 <= i < |s| - |r| ==> IsBlank(s[i])
    decreases |s|
  {
    if s != [] && IsBlank(s[0]) {
      StripLeadingProps(s[1..]);
    }
  }

  /** Mode 1: every blank goes except the second byte of a two-byte character. */
  function StripAll(s: seq<byte>): seq<byte>
    decreases |s|
  {
    if s == [] then []
    else if IsLead(s[0]) then
      if |s| >= 2 then s[..2] + StripAll(s[2..]) else s
    else if IsBlank(s[0]) then StripAll(s[1..])
    else [s[0]] + StripAll(s[1..])
  }

  /** Mode 2: the trailing blanks go. */
  function StripTrailing(s: seq<byte>): seq<byte>
  {
    if s != [] && IsBlank(s[|s| - 1]) then StripTrailing(s[..|s| - 1]) else s
  }

  /** Mode 2 leaves a prefix that does not end with a blank, and only blanks go. */
  lemma {:induction false} StripTrailingProps(s: seq<byte>)
    ensures var r := StripTrailing(s);
            |r| <= |s| && r == s[..|r|] && (r == [] || !IsBlank(r[|r| - 1])) &&
            forall i :: |r| <= i < |s| ==> IsBlank(s[i])
    decreases |s|
  {
    if s != [] && IsBlank(s[|s| - 1]) {
      StripTrailingProps(s[..|s| - 1]);
      assert s[..|s| - 1][..|StripTrailing(s)|] == s[..|StripTrailing(s)|];
    }
  }

  /** The content `RK_DeleteTabSpaceString` leaves; other modes leave the string alone. */
  function DeleteTabSpaceOf(s: seq<byte>, mode: int): seq<byte> {
    if mode == 0 then StripLeading(s)
    else if mode == 1 then StripAll(s)
    else if mode == 2 then StripTrailing(s)
    else s
  }

  /** No blank is a character of its own: every blank is the second byte of a two-byte character. */
  predicate NoBareBlank(s: seq<byte>)
    decreases |s|
  {
    s == [] ||
    (if IsLead(s[0]) then |s| < 2 || NoBareBlank(s[2..])
     else !IsBlank(s[0]) && NoBareBlank(s[1..]))
  }

  /** t is obtained from s by deleting bytes. */
  predicate IsSubsequence(t: seq<byte>, s: seq<byte>)
    decreases |s|
  {
    t == [] ||
    (s != [] && ((t[0] == s[0] && IsSubsequence(t[1..], s[1..])) || IsSubsequence(t, s[1..])))
  }

  lemma {:induction false} SubsequencePrepend(x: seq<byte>, t: seq<byte>, s: seq<byte>)
    requires IsSubsequence(t, s)
    ensures IsSubsequence(x + t, x + s)
    decreases |x|
  {
    if x != [] {
      SubsequencePrepend(x[1..], t, s);
      assert (x + t)[1..] == x[1..] + t;
      assert (x + s)[1..] == x[1..] + s;
      assert (x + t)[0] == (x + s)[0] && IsSubsequence((x + t)[1..], (x + s)[1..]);
    } else {
      assert x + t == t && x + s == s;
    }
  }

  /**
   * Mode 1 deletes bytes and nothing else, leaves no blank standing alone,
   * and keeps a string whose only blanks are inside two-byte characters
   * exactly as it is; a second pass changes nothing.
   */
  lemma {:induction false} StripAllProps(s: seq<byte>)
    ensures IsSubsequence(StripAll(s), s)
    ensures NoBareBlank(StripAll(s))
    ensures StripAll(s) == s <==> NoBareBlank(s)
    ensures StripAll(StripAll(s)) == StripAll(s)
    decreases |s|
  {
    if s == [] {
    } else if IsLead(s[0]) {
      if |s| >= 2 {
        var r := StripAll(s[2..]);
        StripAllProps(s[2..]);
        SubsequencePrepend(s[..2], r, s[2..]);
        assert s[..2] + s[2..] == s;
        assert (s[..2] + r)[2..] == r;
        assert (s[..2] + r)[..2] == s[..2];
      }
    } else if IsBlank(s[0]) {
      StripAllProps(s[1..]);
      assert |StripAll(s)| <= |s[1..]| by { SubsequenceLength(StripAll(s[1..]), s[1..]); }
    } else {
      var r := StripAll(s[1..]);
      StripAllProps(s[1..]);
      SubsequencePrepend([s[0]], r, s[1..]);
      assert [s[0]] + s[1..] == s;
      assert ([s[0]] + r)[1..] == r;
    }
  }

  lemma {:induction false} SubsequenceLength(t: seq<byte>, s: seq<byte>)
    requires IsSubsequence(t, s)
    ensures |t| <= |s|
    decreases |s|
  {
    if t != [] {
      if t[0] == s[0] && IsSubsequence(t[1..], s[1..]) {
        SubsequenceLength(t[1..], s[1..]);
      } else {
        SubsequenceLength(t, s[1..]);
      }
    }
  }

  /** `RK_DeleteTabSpaceString` on a buffer; a null pointer is ignored. */
  method DeleteTabSpaceString(str: array?<byte>, mode: int)
    requires str != null ==> IsCString(str[..])
    modifies str
    ensures str != null ==> IsCString(str[..]) && Str(str[..]) == DeleteTabSpaceOf(old(Str(str[..])), mode)
  {
    if str == null {
      return;
    }
    var len := StrLen(str);
    ghost var s := str[..len];
    if mode == 0 {
      StripLeadingInPlace(str, len);
    } else if mode == 1 {
      StripAllInPlace(str, len);
    } else if mode == 2 {
      StripTrailingInPlace(str, len);
    } else {
      StrIs(str[..], s);
    }
  }

  method StripLeadingInPlace(str: array<byte>, len: nat)
    requires len < str.Length && str[len] == 0 && NoNul(str[..len])
    modifies str
    ensures IsCString(str[..]) && Str(str[..]) == StripLeading(old(str[..len]))
  {
    ghost var s := str[..len];
    var src := SkipBlanks(str, len);
    if src != 0 {
      MoveToFront(str, src, len);
      StrIs(str[..], s[src..]);
    } else {
      StrIs(str[..], s);
    }
  }

  /** The loop of mode 0 that finds the first byte that is not a blank. */
  method SkipBlanks(str: array<byte>, len: nat) returns (src: nat)
    requires len < str.Length && str[len] == 0 && NoNul(str[..len])
    ensures src <= len && str[src..len] == StripLeading(str[..len])
  {
    ghost var s := str[..len];
    src := 0;
    while str[src] == Space || str[src] == Tab
      invariant src <= len && StripLeading(s[src..]) == StripLeading(s)
      decreases len - src
    {
      LowByteOfByte(str[src]);
      if CheckSjis(str[src]) == 1 {
        break;
      }
      assert s[src] == str[src];
      assert s[src..][1..] == s[src + 1..];
      src := src + 1;
    }
    assert str[src..len] == s[src..];
  }

  /** What one turn of the loop of mode 1 keeps at position i. */
  function Kept(s: seq<byte>, i: nat): seq<byte>
    requires i < |s|
  {
    if IsLead(s[i]) then (if i + 1 < |s| then [s[i], s[i + 1]] else [s[i]])
    else if IsBlank(s[i]) then []
    else [s[i]]
  }

  /** Where the next turn of the loop of mode 1 starts. */
  function Skip(s: seq<byte>, i: nat): nat
    requires i < |s|
  {
    if IsLead(s[i]) && i + 1 < |s| then i + 2 else i + 1
  }

  /** Mode 1 from position i, by index. */
  function StripAllFrom(s: seq<byte>, i: nat): seq<byte>
    decreases |s| - i
  {
    if i >= |s| then [] else Kept(s, i) + StripAllFrom(s, Skip(s, i))
  }

  lemma {:induction false} StripAllFromIs(s: seq<byte>, i: nat)
    requires i <= |s|
    ensures StripAllFrom(s, i) == StripAll(s[i..])
    decreases |s| - i
  {
    if i < |s| {
      StripAllFromIs(s, Skip(s, i));
      assert s[i..][1..] == s[i + 1..];
      if i + 1 < |s| {
        assert s[i..][2..] == s[i + 2..] && s[i..][..2] == [s[i], s[i + 1]];
      }
    }
  }

  method StripAllInPlace(str: array<byte>, len: nat)
    requires len < str.Length && str[len] == 0 && NoNul(str[..len])
    modifies str
    ensures IsCString(str[..]) && Str(str[..]) == StripAll(old(str[..len]))
  {
    ghost var s := str[..len];
    var dst := StripAllLoop(str, s, len);
    str[dst] := 0;
    StripAllFits(s);
    StrIs(str[..], StripAll(s));
  }

  /** The two-position copy loop of mode 1. */
  method StripAllLoop(str: array<byte>, ghost s: seq<byte>, len: nat) returns (dst: nat)
    requires len < str.Length && str[len] == 0 && |s| == len && NoNul(s)
    requires forall k :: 0 <= k < len ==> str[k] == s[k]
    modifies str
    ensures dst < str.Length && str[..dst] == StripAll(s)
  {
    ghost var out: seq<byte> := [];
    var src := 0;
    dst := 0;
    while str[src] != 0
      invariant dst <= src <= len < str.Length && dst == |out|
      invariant str[..dst] == out
      invariant out + StripAllFrom(s, src) == StripAllFrom(s, 0)
      invariant str[len] == 0 && forall k :: src <= k < len ==> str[k] == s[k]
      decreases len - src
    {
      StripAllStep(out, s, src);
      out := out + Kept(s, src);
      src, dst := StripAllTurn(str, s, len, src, dst);
    }
    StripAllFromIs(s, 0);
  }

  /** Moving one turn's kept bytes from the rest to the output keeps their concatenation. */
  lemma StripAllStep(out: seq<byte>, s: seq<byte>, src: nat)
    requires src < |s|
    ensures (out + Kept(s, src)) + StripAllFrom(s, Skip(s, src)) == out + StripAllFrom(s, src)
  {
  }

  /** One turn of the loop of mode 1: the bytes kept at src are written at dst. */
  method StripAllTurn(str: array<byte>, ghost s: seq<byte>, len: nat, src: nat, dst: nat) returns (src': nat, dst': nat)
    requires dst <= src < len < str.Length && |s| == len && NoNul(s)
    requires str[len] == 0 && forall k :: src <= k < len ==> str[k] == s[k]
    modifies str
    ensures src' == Skip(s, src) && dst' == dst + |Kept(s, src)| && dst' <= src' <= len
    ensures str[..dst'] == old(str[..dst]) + Kept(s, src)
    ensures str[len] == 0 && forall k :: src' <= k < len ==> str[k] == s[k]
  {
    src', dst' := src, dst;
    LowByteOfByte(s[src]);
    if CheckSjis(str[src']) == 1 {
      str[dst'] := str[src'];
      dst', src' := dst' + 1, src' + 1;
      if str[src'] != 0 {
        str[dst'] := str[src'];
        dst', src' := dst' + 1, src' + 1;
      }
    } else if str[src'] != Space && str[src'] != Tab {
      str[dst'] := str[src'];
      dst', src' := dst' + 1, src' + 1;
    } else {
      src' := src' + 1;
    }
  }

  /** Mode 1 never lengthens the string and brings in no NUL. */
  lemma StripAllFits(s: seq<byte>)
    requires NoNul(s)
    ensures |StripAll(s)| <= |s| && NoNul(StripAll(s))
  {
    StripAllProps(s);
    SubsequenceLength(StripAll(s), s);
    StripAllNoNul(s);
  }

  lemma {:induction false} StripAllNoNul(s: seq<byte>)
    requires NoNul(s)
    ensures NoNul(StripAll(s))
    decreases |s|
  {
    if s != [] {
      if IsLead(s[0]) {
        if |s| >= 2 {
          StripAllNoNul(s[2..]);
        }
      } else {
        StripAllNoNul(s[1..]);
      }
    }
  }

  method StripTrailingInPlace(str: array<byte>, len: nat)
    requires len < str.Length && str[len] == 0 && NoNul(str[..len])
    modifies str
    ensures IsCString(str[..]) && Str(str[..]) == StripTrailing(old(str[..len]))
  {
    ghost var s := str[..len];
    if len == 0 {
      StrIs(str[..], s);
      return;
    }
    var end := len - 1;
    assert s[..end + 1] == s;
    while end >= 0 && (str[end] == Space || str[end] == Tab)
      invariant -1 <= end < len
      invariant StripTrailing(s[..end + 1]) == StripTrailing(s)
      decreases end
    {
      assert s[..end + 1][..end] == s[..end];
      end := end - 1;
    }
    str[end + 1] := 0;
    StrIs(str[..], s[..end + 1]);
  }

  // ---------------------------------------------------------------- fixed-width copy

  /** Room spaces. */
  function Spaces(n: nat): (r: seq<byte>)
    ensures |r| == n && forall i :: 0 <= i < n ==> r[i] == Space
  {
    seq(n, i => Space)
  }

  /**
   * The bytes the copy loop of `RK_StringCopyNumber` takes from s, with
   * room bytes left in the field and sjisCount as the source keeps it:
   * one more than the number of lead bytes copied so far.
   */
  function TakeAsWritten(s: seq<byte>, room: int, sjisCount: int, maxLen: int): seq<byte>
    decreases |s|
  {
    if room <= 0 || s == [] then []
    else if IsLead(s[0]) then
      if sjisCount == maxLen then []
      else if room > 1 && |s| > 1 then s[..2] + TakeAsWritten(s[2..], room - 2, sjisCount + 1, maxLen)
      else [s[0]] + TakeAsWritten(s[1..], room - 1, sjisCount + 1, maxLen)
    else [s[0]] + TakeAsWritten(s[1..], room - 1, sjisCount, maxLen)
  }

  /** The copy loop as written takes a prefix of the source that fits the room. */
  lemma {:induction false} TakeAsWrittenPrefix(s: seq<byte>, room: int, sjisCount: int, maxLen: int)
    ensures var r := TakeAsWritten(s, room, sjisCount, maxLen);
            r <= s && |r| <= if room < 0 then 0 else room
    decreases |s|
  {
    if room > 0 && s != [] {
      if IsLead(s[0]) {
        if sjisCount != maxLen {
          if room > 1 && |s| > 1 {
            TakeAsWrittenPrefix(s[2..], room - 2, sjisCount + 1, maxLen);
            assert s == s[..2] + s[2..];
          } else {
            TakeAsWrittenPrefix(s[1..], room - 1, sjisCount + 1, maxLen);
          }
        }
      } else {
        TakeAsWrittenPrefix(s[1..], room - 1, sjisCount, maxLen);
      }
    }
  }

  /** The content `RK_StringCopyNumber` writes, as the source computes it; None is a null source. */
  function CopyNumberAsWritten(src: Option<seq<byte>>, maxLen: int): (r: seq<byte>)
    ensures |r| == if maxLen <= 0 then 0 else maxLen
  {
    if maxLen <= 0 then []
    else if src.None? then Spaces(maxLen)
    else
      var t := TakeAsWritten(src.value, maxLen, 1, maxLen);
      TakeAsWrittenPrefix(src.value, maxLen, 1, maxLen);
      t + Spaces(maxLen - |t|)
  }

  /**
   * The copy that never splits a two-byte character: a lead byte that
   * would be the last byte of the field is not copied.
   */
  function Take(s: seq<byte>, room: int): seq<byte>
    decreases |s|
  {
    if room <= 0 || s == [] then []
    else if IsLead(s[0]) then
      if room == 1 then []
      else if |s| > 1 then s[..2] + Take(s[2..], room - 2)
      else s
    else [s[0]] + Take(s[1..], room - 1)
  }

  /** The corrected copy takes a prefix of the source that fits the room. */
  lemma {:induction false} TakePrefix(s: seq<byte>, room: int)
    ensures var r := Take(s, room); r <= s && |r| <= if room < 0 then 0 else room
    decreases |s|
  {
    if room > 0 && s != [] {
      if IsLead(s[0]) {
        if room > 1 && |s| > 1 {
          TakePrefix(s[2..], room - 2);
          assert s == s[..2] + s[2..];
        }
      } else {
        TakePrefix(s[1..], room - 1);
      }
    }
  }

  /** The fixed-width copy with the two-byte rule the source intends. */
  function CopyNumber(src: Option<seq<byte>>, maxLen: int): (r: seq<byte>)
    ensures |r| == if maxLen <= 0 then 0 else maxLen
  {
    if maxLen <= 0 then []
    else if src.None? then Spaces(maxLen)
    else
      var t := Take(src.value, maxLen);
      TakePrefix(src.value, maxLen);
      t + Spaces(maxLen - |t|)
  }

  /** Whether the walk lands on k does not change when both are moved back by d. */
  lemma {:induction false} StepsOnShift(s: seq<byte>, d: nat, i: nat, k: nat)
    requires d <= i <= |s|
    ensures StepsOn(s, i, k) == (k >= d && StepsOn(s[d..], i - d, k - d))
    decreases k - i
  {
    if i < k && i < |s| {
      assert s[d..][i - d] == s[i];
      var n := NextChar(s, i);
      if n <= |s| {
        StepsOnShift(s, d, n, k);
      } else {
        StepsOnBeyond(s, n, k);
        StepsOnBeyond(s[d..], n - d, k - d);
      }
    }
  }

  lemma StepsOnBeyond(s: seq<byte>, i: nat, k: nat)
    requires i > |s|
    ensures StepsOn(s, i, k) <==> i == k
  {
  }

  /** The fixed-width copy takes whole characters: it stops on a character boundary or at the end of the source. */
  lemma {:induction false} TakeWholeCharacters(s: seq<byte>, room: int)
    ensures var t := Take(s, room); StepsOn(s, 0, |t|) || |t| == |s|
    decreases |s|
  {
    var t := Take(s, room);
    if room > 0 && s != [] {
      if IsLead(s[0]) {
        if room > 1 && |s| > 1 {
          var u := Take(s[2..], room - 2);
          assert t == s[..2] + u;
          TakeWholeCharacters(s[2..], room - 2);
          TakePrefix(s[2..], room - 2);
          if |u| < |s| - 2 {
            StepsOnShift(s, 2, 2, |t|);
            assert StepsOn(s, 0, |t|) == StepsOn(s, 2, |t|);
          }
        }
      } else {
        var u := Take(s[1..], room - 1);
        assert t == [s[0]] + u;
        TakeWholeCharacters(s[1..], room - 1);
        TakePrefix(s[1..], room - 1);
        if |u| < |s| - 1 {
          StepsOnShift(s, 1, 1, |t|);
          assert StepsOn(s, 0, |t|) == StepsOn(s, 1, |t|);
        }
      }
    }
  }

  /** The field holds the source's whole characters from its start, then spaces. */
  lemma CopyNumberProps(src: seq<byte>, maxLen: int)
    requires maxLen > 0
    ensures var r := CopyNumber(Some(src), maxLen);
            var t := Take(src, maxLen);
            r == t + Spaces(maxLen - |t|) && t <= src &&
            (StepsOn(src, 0, |t|) || |t| == |src|) &&
            (|src| <= maxLen && EndsOnBoundary(src) ==> t == src)
  {
    TakeWholeCharacters(src, maxLen);
    if |src| <= maxLen && EndsOnBoundary(src) {
      TakeAllFits(src, maxLen);
    }
  }

  lemma {:induction false} TakeAllFits(s: seq<byte>, room: int)
    requires |s| <= room && EndsOnBoundary(s)
    ensures Take(s, room) == s
    decreases |s|
  {
    if s != [] {
      var n := NextChar(s, 0);
      assert StepsOn(s, n, |s|);
      StepsOnShift(s, n, n, |s|);
      if IsLead(s[0]) {
        TakeAllFits(s[2..], room - 2);
      } else {
        TakeAllFits(s[1..], room - 1);
      }
    }
  }

  /**
   * As written, the copy compares the count of lead bytes with the field
   * width instead of testing whether only one byte of room is left: one
   * ASCII letter and one two-byte character in a field of two leave the
   * lead byte alone at the end of the field.
   */
  lemma CopyNumberSplitsCharacter()
    ensures var src := [0x61, 0x82, 0xA0];
            var t := TakeAsWritten(src, 2, 1, 2);
            t == [0x61, 0x82] && !StepsOn(src, 0, |t|) && |t| < |src| &&
            CopyNumberAsWritten(Some(src), 2) == [0x61, 0x82] &&
            CopyNumber(Some(src), 2) == [0x61, Space]
  {
    var src: seq<byte> := [0x61, 0x82, 0xA0];
    assert src[1..] == [0x82, 0xA0];
    assert TakeAsWritten(src[1..], 1, 1, 2) == [0x82] by {
      assert src[1..][1..] == [0xA0];
    }
    assert StepsOn(src, 1, 2) == StepsOn(src, 3, 2);
    assert Take(src[1..], 1) == [];
  }

  /** `RK_StringCopyNumber` into a buffer of at least maxLen + 1 bytes; a null destination is ignored. */
  method StringCopyNumber(src: Option<seq<byte>>, dest: array?<byte>, maxLen: int)
    requires src.Some? ==> NoNul(src.value)
    requires dest != null ==> dest.Length > if maxLen <= 0 then 0 else maxLen
    modifies dest
    ensures dest != null ==> IsCString(dest[..]) && Str(dest[..]) == CopyNumberAsWritten(src, maxLen)
  {
    if dest == null {
      return;
    }
    if maxLen <= 0 {
      dest[0] := 0;
      StrIs(dest[..], []);
      return;
    }
    if src.None? {
      forall i | 0 <= i < maxLen {
        dest[i] := Space;
      }
      dest[maxLen] := 0;
      StrIs(dest[..], Spaces(maxLen));
      return;
    }
    var s := src.value;
    var copied := CopyCharacters(s, dest, maxLen);
    var t := TakeAsWritten(s, maxLen, 1, maxLen);
    while copied < maxLen
      invariant |t| <= copied <= maxLen
      invariant dest[..copied] == t + Spaces(copied - |t|)
    {
      dest[copied] := Space;
      copied := copied + 1;
      assert dest[..copied] == dest[..copied - 1] + [Space];
      assert Spaces(copied - |t|) == Spaces(copied - 1 - |t|) + [Space];
    }
    dest[copied] := 0;
    assert NoNul(t + Spaces(maxLen - |t|)) by {
      TakeAsWrittenPrefix(s, maxLen, 1, maxLen);
      assert t == s[..|t|];
    }
    StrIs(dest[..], t + Spaces(maxLen - |t|));
  }

  /** The bytes one turn of the copy loop copies when it does not stop. */
  function CopyChunk(s: seq<byte>, i: nat, room: int): seq<byte>
    requires i < |s|
  {
    if IsLead(s[i]) && room > 1 && i + 1 < |s| then [s[i], s[i + 1]] else [s[i]]
  }

  /** The copy loop as written stops at a lead byte when the lead-byte count equals the width. */
  lemma TakeAsWrittenStop(s: seq<byte>, i: nat, room: int, sjisCount: int, maxLen: int)
    requires i < |s| && room > 0 && IsLead(s[i]) && sjisCount == maxLen
    ensures TakeAsWritten(s[i..], room, sjisCount, maxLen) == []
  {
  }

  /** One turn of the copy loop as written that does not stop copies `CopyChunk`. */
  lemma TakeAsWrittenAdvance(s: seq<byte>, i: nat, maxLen: int, sjisCount: int, out: seq<byte>, t: seq<byte>,
                             i': nat, sjisCount': int)
    requires i < |s| && i < maxLen && !(IsLead(s[i]) && sjisCount == maxLen)
    requires out + TakeAsWritten(s[i..], maxLen - i, sjisCount, maxLen) == t
    requires i' == i + |CopyChunk(s, i, maxLen - i)| && sjisCount' == if IsLead(s[i]) then sjisCount + 1 else sjisCount
    ensures out + CopyChunk(s, i, maxLen - i) + TakeAsWritten(s[i'..], maxLen - i', sjisCount', maxLen) == t
  {
    assert s[i..][1..] == s[i + 1..];
    if i + 1 < |s| {
      assert s[i..][2..] == s[i + 2..] && s[i..][..2] == [s[i], s[i + 1]];
    }
    assert TakeAsWritten(s[i..], maxLen - i, sjisCount, maxLen) ==
           CopyChunk(s, i, maxLen - i) + TakeAsWritten(s[i'..], maxLen - i', sjisCount', maxLen);
  }

  /** The copy loop of `RK_StringCopyNumber`. */
  method CopyCharacters(s: seq<byte>, dest: array<byte>, maxLen: int) returns (copied: nat)
    requires 0 < maxLen < dest.Length
    modifies dest
    ensures copied == |TakeAsWritten(s, maxLen, 1, maxLen)| <= maxLen
    ensures dest[..copied] == TakeAsWritten(s, maxLen, 1, maxLen)
  {
    ghost var t := TakeAsWritten(s, maxLen, 1, maxLen);
    ghost var out: seq<byte> := [];
    copied := 0;
    var i := 0;
    var sjisCount := 1;
    while copied < maxLen && i < |s|
      invariant i == copied == |out| <= maxLen && i <= |s|
      invariant dest[..copied] == out
      invariant out + TakeAsWritten(s[i..], maxLen - copied, sjisCount, maxLen) == t
      decreases |s| - i
    {
      LowByteOfByte(s[i]);
      if CheckSjis(s[i]) == 1 && sjisCount == maxLen {
        TakeAsWrittenStop(s, i, maxLen - copied, sjisCount, maxLen);
        break;
      }
      ghost var i0, sjisCount0, out0 := i, sjisCount, out;
      out := out + CopyChunk(s, i, maxLen - copied);
      if CheckSjis(s[i]) == 1 {
        sjisCount := sjisCount + 1;
      }
      i := CopyTurn(s, dest, maxLen, i);
      copied := i;
      TakeAsWrittenAdvance(s, i0, maxLen, sjisCount0, out0, t, i, sjisCount);
    }
    TakeAsWrittenPrefix(s, maxLen, 1, maxLen);
  }

  /** One turn of the copy loop that does not stop: the chunk at i is copied to the same place. */
  method CopyTurn(s: seq<byte>, dest: array<byte>, maxLen: int, i: nat) returns (i': nat)
    requires i < |s| && 0 <= i < maxLen < dest.Length
    modifies dest
    ensures i' == i + |CopyChunk(s, i, maxLen - i)| <= maxLen
    ensures dest[..i'] == old(dest[..i]) + CopyChunk(s, i, maxLen - i)
  {
    LowByteOfByte(s[i]);
    dest[i] := s[i];
    i' := i + 1;
    if CheckSjis(s[i]) == 1 && i' < maxLen && i' < |s| {
      dest[i'] := s[i'];
      i' := i' + 1;
    }
  }

  // ---------------------------------------------------------------- name and extension

  /** The name `RK_AnalyzeFilename` gives: "." and ".." as they are, else the part before the last one-byte dot. */
  function NameOf(s: seq<byte>): seq<byte> {
    if s == [Dot] || s == [Dot, Dot] then s
    else
      var k := LastSingle(s, Dot, -1);
      if 0 <= k < |s| then s[..k] else s
  }

  /** The extension: the part after the last one-byte dot, or empty. */
  function ExtOf(s: seq<byte>): seq<byte> {
    if s == [Dot] || s == [Dot, Dot] then []
    else
      var k := LastSingle(s, Dot, -1);
      if 0 <= k < |s| then s[k + 1..] else []
  }

  /**
   * Name, dot and extension make up the file name when it has a dot of its
   * own; without one the name is the whole file name and the extension is
   * empty; "." and ".." are names.
   */
  lemma AnalyzeFilenameSplit(s: seq<byte>)
    ensures s == [Dot] || s == [Dot, Dot] ==> NameOf(s) == s && ExtOf(s) == []
    ensures s != [Dot] && s != [Dot, Dot] && (exists k: nat :: SingleAt(s, k, Dot)) ==>
              NameOf(s) + [Dot] + ExtOf(s) == s
    ensures (forall k: nat :: !SingleAt(s, k, Dot)) ==> NameOf(s) == s && ExtOf(s) == []
  {
    LastSingleSpec(s, Dot, -1);
    if s != [Dot] && s != [Dot, Dot] {
      var k := LastSingle(s, Dot, -1);
      if 0 <= k < |s| {
        assert s[..k] + [Dot] + s[k + 1..] == s;
      }
    }
  }

  /** `RK_AnalyzeFilename` into two buffers with room for their parts; a null pointer makes it do nothing. */
  method AnalyzeFilename(filename: Option<seq<byte>>, nameOut: array?<byte>, extOut: array?<byte>)
    requires filename.Some? ==> NoNul(filename.value)
    requires filename.Some? && nameOut != null && extOut != null ==>
               nameOut != extOut && |NameOf(filename.value)| < nameOut.Length && |ExtOf(filename.value)| < extOut.Length
    modifies nameOut, extOut
    ensures filename.Some? && nameOut != null && extOut != null ==>
              IsCString(nameOut[..]) && Str(nameOut[..]) == NameOf(filename.value) &&
              IsCString(extOut[..]) && Str(extOut[..]) == ExtOf(filename.value)
  {
    if filename.None? || nameOut == null || extOut == null {
      return;
    }
    var s := filename.value;
    if s == [Dot] || s == [Dot, Dot] {
      WriteString(nameOut, s);
      WriteString(extOut, []);
      return;
    }
    var lastDot := ScanLastSingle(s, Dot, -1);
    LastSingleSpec(s, Dot, -1);
    if lastDot < 0 {
      WriteString(nameOut, s);
      WriteString(extOut, []);
    } else {
      WriteString(nameOut, s[..lastDot]);
      WriteString(extOut, s[lastDot + 1..]);
    }
  }

  /** `memcpy` or `strcpy` of t and a NUL into a buffer. */
  method WriteString(buf: array<byte>, t: seq<byte>)
    requires NoNul(t) && |t| < buf.Length
    modifies buf
    ensures IsCString(buf[..]) && Str(buf[..]) == t
  {
    forall i | 0 <= i < |t| {
      buf[i] := t[i];
    }
    buf[|t|] := 0;
    StrIs(buf[..], t);
  }

  /** The early rejection of `RK_FilenameCompareWildCard`: exactly one of pattern and file name has a one-byte dot. */
  method WildCardDotMismatch(pattern: seq<byte>, filename: seq<byte>) returns (reject: bool)
    ensures reject <==> (exists k: nat :: SingleAt(pattern, k, Dot)) != (exists k: nat :: SingleAt(filename, k, Dot))
  {
    var patternDot := ScanLastSingle(pattern, Dot, -1);
    var filenameDot := ScanLastSingle(filename, Dot, -1);
    LastSingleSpec(pattern, Dot, -1);
    LastSingleSpec(filename, Dot, -1);
    reject := (patternDot == -1 && filenameDot != -1) || (patternDot != -1 && filenameDot == -1);
  }

  // ---------------------------------------------------------------- quotes

  /** `RK_MesDefineCheck`: 1 exactly when the string has at least two bytes and starts and ends with a quote. */
  function MesDefineCheck(str: Option<seq<byte>>): (r: int)
    ensures r == 0 || r == 1
    ensures r == 1 <==> str.Some? && |str.value| >= 2 && str.value[0] == Quote && str.value[|str.value| - 1] == Quote
  {
    if str.None? then 0
    else
      var s := str.value;
      if s == [] || s[0] != Quote then 0
      else if |s| - 1 == 0 then 0
      else if s[|s| - 1] == Quote then 1 else 0
  }

  /** The content `RK_MesDefineCut` leaves: the leading quote goes, and then a trailing one. */
  function MesDefineCutOf(s: seq<byte>): seq<byte> {
    if s == [] || s[0] != Quote then s
    else
      var t := s[1..];
      if t != [] && t[|t| - 1] == Quote then t[..|t| - 1] else t
  }

  /** The content `RK_MesDefineSet` leaves: a quoted string gets its closing quote, any other both quotes. */
  function MesDefineSetOf(s: seq<byte>): seq<byte> {
    if s != [] && s[0] == Quote then
      if s[|s| - 1] == Quote then s else s + [Quote]
    else [Quote] + s + [Quote]
  }

  /**
   * Quoting a string that does not start with a quote makes it pass the
   * check, and cutting the quotes gives it back; after quoting, the check
   * passes for every string but a lone quote, and quoting again changes
   * nothing.
   */
  lemma MesDefineRoundTrip(s: seq<byte>)
    ensures s == [] || s[0] != Quote ==>
              MesDefineCheck(Some(MesDefineSetOf(s))) == 1 && MesDefineCutOf(MesDefineSetOf(s)) == s
    ensures MesDefineCheck(Some(MesDefineSetOf(s))) == 1 <==> s != [Quote]
    ensures MesDefineSetOf(MesDefineSetOf(s)) == MesDefineSetOf(s)
  {
    if s == [] || s[0] != Quote {
      var u := [Quote] + s + [Quote];
      assert u[1..][..|s|] == s;
    }
  }

  /** `RK_MesDefineCheck` accepts exactly what `RK_MesDefineCut` shortens at both ends. */
  lemma MesDefineCutOfChecked(s: seq<byte>)
    ensures MesDefineCheck(Some(s)) == 1 <==> |s| >= 2 && MesDefineCutOf(s) == s[1..|s| - 1]
  {
  }

  /** `RK_MesDefineCut` on a buffer; a null pointer is ignored. */
  method MesDefineCut(str: array?<byte>)
    requires str != null ==> IsCString(str[..])
    modifies str
    ensures str != null ==> IsCString(str[..]) && Str(str[..]) == MesDefineCutOf(old(Str(str[..])))
  {
    if str == null || str[0] != Quote {
      return;
    }
    var len := StrLen(str);
    ghost var s := str[..len];
    MoveToFront(str, 1, len);
    var len' := len - 1;
    StrIs(str[..], s[1..]);
    if len' > 0 && str[len' - 1] == Quote {
      str[len' - 1] := 0;
      StrIs(str[..], s[1..][..len' - 1]);
    }
  }

  /** `RK_MesDefineSet` on a buffer with room for the quotes it adds; a null pointer is ignored. */
  method MesDefineSet(str: array?<byte>)
    requires str != null ==> IsCString(str[..]) && |MesDefineSetOf(Str(str[..]))| < str.Length
    modifies str
    ensures str != null ==> IsCString(str[..]) && Str(str[..]) == MesDefineSetOf(old(Str(str[..])))
  {
    if str == null {
      return;
    }
    var len := StrLen(str);
    ghost var s := str[..len];
    if str[0] == Quote {
      if len > 0 && str[len - 1] == Quote {
        return;
      }
      str[len] := Quote;
      str[len + 1] := 0;
      StrIs(str[..], s + [Quote]);
      return;
    }
    MoveRightOne(str, len);
    ghost var moved := str[1..len + 1];
    assert moved == s;
    str[0] := Quote;
    str[len + 1] := Quote;
    str[len + 2] := 0;
    Quoted(str[..], s);
    StrIs(str[..], [Quote] + s + [Quote]);
  }

  /** A buffer holding a quote, then s, then a quote, starts with the quoted s. */
  lemma Quoted(a: seq<byte>, s: seq<byte>)
    requires |s| + 2 <= |a| && a[0] == Quote && a[1..|s| + 1] == s && a[|s| + 1] == Quote
    ensures a[..|s| + 2] == [Quote] + s + [Quote]
  {
    assert a[..|s| + 2] == [a[0]] + a[1..|s| + 1] + [a[|s| + 1]];
  }

  // ---------------------------------------------------------------- SYSTEMTIME

  datatype SystemTime = SystemTime(year: u16, month: u16, dayOfWeek: u16, day: u16,
                                   hour: u16, minute: u16, second: u16, milliseconds: u16)

  /** `RK_SystemTimeCompare`: 1 when t1 is later, -1 when earlier, 0 when the same instant. */
  function SystemTimeCompare(t1: SystemTime, t2: SystemTime): (r: int)
    ensures r == -1 || r == 0 || r == 1
  {
    if t1.year > t2.year then 1 else if t1.year < t2.year then -1
    else if t1.month > t2.month then 1 else if t1.month < t2.month then -1
    else if t1.day > t2.day then 1 else if t1.day < t2.day then -1
    else if t1.hour > t2.hour then 1 else if t1.hour < t2.hour then -1
    else if t1.minute > t2.minute then 1 else if t1.minute < t2.minute then -1
    else if t1.second > t2.second then 1 else if t1.second < t2.second then -1
    else if t1.milliseconds > t2.milliseconds then 1 else if t1.milliseconds < t2.milliseconds then -1
    else 0
  }

  /** The fields the comparison orders by, most significant first; the day of the week is not one of them. */
  function TimeKey(t: SystemTime): seq<int> {
    [t.year as int, t.month as int, t.day as int, t.hour as int, t.minute as int, t.second as int, t.milliseconds as int]
  }

  /** Lexicographic comparison of two sequences of the same length. */
  function LexCompare(a: seq<int>, b: seq<int>): (r: int)
    requires |a| == |b|
    ensures r == -1 || r == 0 || r == 1
    ensures r == 0 <==> a == b
    decreases |a|
  {
    if a == [] then 0
    else if a[0] > b[0] then 1
    else if a[0] < b[0] then -1
    else LexCompare(a[1..], b[1..])
  }

  lemma {:induction false} LexAntisymmetric(a: seq<int>, b: seq<int>)
    requires |a| == |b|
    ensures LexCompare(a, b) == -LexCompare(b, a)
    decreases |a|
  {
    if a != [] && a[0] == b[0] {
      LexAntisymmetric(a[1..], b[1..]);
    }
  }

  lemma {:induction false} LexTransitive(a: seq<int>, b: seq<int>, c: seq<int>)
    requires |a| == |b| == |c| && LexCompare(a, b) == 1 && LexCompare(b, c) == 1
    ensures LexCompare(a, c) == 1
    decreases |a|
  {
    if a[0] == b[0] && b[0] == c[0] {
      LexTransitive(a[1..], b[1..], c[1..]);
    }
  }

  /**
   * `RK_SystemTimeCompare` is the lexicographic order on year, month, day,
   * hour, minute, second and milliseconds: 0 exactly for equal keys,
   * antisymmetric, transitive, and blind to the day of the week.
   */
  lemma SystemTimeCompareIsLexicographic(t1: SystemTime, t2: SystemTime, t3: SystemTime, dow: u16)
    ensures SystemTimeCompare(t1, t2) == LexCompare(TimeKey(t1), TimeKey(t2))
    ensures SystemTimeCompare(t1, t2) == 0 <==> TimeKey(t1) == TimeKey(t2)
    ensures SystemTimeCompare(t1, t2) == -SystemTimeCompare(t2, t1)
    ensures SystemTimeCompare(t1, t2) == 1 && SystemTimeCompare(t2, t3) == 1 ==> SystemTimeCompare(t1, t3) == 1
    ensures SystemTimeCompare(t1.(dayOfWeek := dow), t2) == SystemTimeCompare(t1, t2)
  {
    LexAgrees(t1, t2);
    LexAgrees(t2, t1);
    LexAgrees(t2, t3);
    LexAgrees(t1, t3);
    LexAntisymmetric(TimeKey(t1), TimeKey(t2));
    if SystemTimeCompare(t1, t2) == 1 && SystemTimeCompare(t2, t3) == 1 {
      LexTransitive(TimeKey(t1), TimeKey(t2), TimeKey(t3));
    }
  }

  lemma LexAgrees(t1: SystemTime, t2: SystemTime)
    ensures SystemTimeCompare(t1, t2) == LexCompare(TimeKey(t1), TimeKey(t2))
  {
    var a6, b6 := [t1.milliseconds as int], [t2.milliseconds as int];
    var a5, b5 := [t1.second as int] + a6, [t2.second as int] + b6;
    var a4, b4 := [t1.minute as int] + a5, [t2.minute as int] + b5;
    var a3, b3 := [t1.hour as int] + a4, [t2.hour as int] + b4;
    var a2, b2 := [t1.day as int] + a3, [t2.day as int] + b3;
    var a1, b1 := [t1.month as int] + a2, [t2.month as int] + b2;
    var a0, b0 := [t1.year as int] + a1, [t2.year as int] + b1;
    assert a0 == TimeKey(t1) && b0 == TimeKey(t2);
    LexCons(t1.milliseconds as int, t2.milliseconds as int, [], []);
    assert a6 == [t1.milliseconds as int] + [] && b6 == [t2.milliseconds as int] + [];
    LexCons(t1.second as int, t2.second as int, a6, b6);
    LexCons(t1.minute as int, t2.minute as int, a5, b5);
    LexCons(t1.hour as int, t2.hour as int, a4, b4);
    LexCons(t1.day as int, t2.day as int, a3, b3);
    LexCons(t1.month as int, t2.month as int, a2, b2);
    LexCons(t1.year as int, t2.year as int, a1, b1);
  }

  lemma LexCons(x: int, y: int, a: seq<int>, b: seq<int>)
    requires |a| == |b|
    ensures LexCompare([x] + a, [y] + b) == if x > y then 1 else if x < y then -1 else LexCompare(a, b)
  {
    assert ([x] + a)[1..] == a && ([y] + b)[1..] == b;
  }


}
