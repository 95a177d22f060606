/** The string operations the device-info, cell-voltage and timer decoders and
    the WiFi setter rely on, with the meaning they have in the source language:
    substring search, slicing with negative indices, whitespace stripping,
    splitting on a separator, decimal numbers and UTF-8 encoding. */
module Text {
  import opened Wrappers
  import opened Bytes

  // ---------------------------------------------------------------- bytes <-> text

  /** Text recovered from received bytes by UTF-8 decoding with errors
      ignored, restricted to the ASCII subset: a byte below 0x80 is its own
      character and any other byte is dropped. */
  function AsciiText(b: seq<Byte>): (t: string)
    ensures |t| <= |b|
    ensures forall i :: 0 <= i < |t| ==> t[i] as int < 0x80
  {
    if b == [] then []
    else AsciiText(b[..|b| - 1]) + AsciiChar(b[|b| - 1])
  }

  /** The decoded form of a single byte: itself below 0x80, nothing above. */
  function AsciiChar(x: Byte): (t: string)
    ensures |t| == (if x < 0x80 then 1 else 0)
    ensures x < 0x80 ==> t[0] as int == x
  {
    if x < 0x80 then [x as char] else []
  }

  lemma {:induction false} AsciiTextAppend(a: seq<Byte>, b: seq<Byte>)
    ensures AsciiText(a + b) == AsciiText(a) + AsciiText(b)
    decreases |b|
  {
    if b == [] {
      assert a + b == a;
    } else {
      assert (a + b)[..|a + b| - 1] == a + b[..|b| - 1];
      AsciiTextAppend(a, b[..|b| - 1]);
    }
  }

  /** A byte value absent from the input is absent from the decoded text. */
  lemma {:induction false} AsciiTextAvoids(b: seq<Byte>, x: Byte)
    requires forall i :: 0 <= i < |b| ==> b[i] != x
    ensures forall k :: 0 <= k < |AsciiText(b)| ==> AsciiText(b)[k] as int != x
    decreases |b|
  {
    if b != [] {
      AsciiTextAvoids(b[..|b| - 1], x);
    }
  }

  /** UTF-8 encoding of one character (one to four bytes). */
  function Utf8Char(c: char): (r: seq<Byte>)
    ensures 1 <= |r| <= 4
    ensures (|r| == 1) == (c as int < 0x80)
    ensures |r| == 1 ==> r[0] == c as int
    ensures r[0] >= 0x80 ==> forall i :: 1 <= i < |r| ==> 0x80 <= r[i] < 0xC0
  {
    var n := c as int;
    if n < 0x80 then [n] else Utf8Multi(n)
  }

  /** The two- to four-byte encoding of a code point from 0x80 on: a lead
      byte from 0xC0 on, then continuation bytes 0x80..0xBF. */
  function Utf8Multi(n: int): (r: seq<Byte>)
    requires 0x80 <= n < 0x11_0000
    ensures 2 <= |r| <= 4 && r[0] >= 0xC0
    ensures forall i :: 1 <= i < |r| ==> 0x80 <= r[i] < 0xC0
  {
    if n < 0x800 then [0xC0 + n / 0x40, 0x80 + n % 0x40]
    else if n < 0x1_0000 then [0xE0 + n / 0x1000, 0x80 + (n / 0x40) % 0x40, 0x80 + n % 0x40]
    else [0xF0 + n / 0x4_0000, 0x80 + (n / 0x1000) % 0x40, 0x80 + (n / 0x40) % 0x40, 0x80 + n % 0x40]
  }

  /** UTF-8 encoding of a string, as `str.encode('utf-8')` produces it. */
  function Utf8(s: string): (r: seq<Byte>)
    ensures |r| >= |s|
  {
    if s == [] then [] else Utf8(s[..|s| - 1]) + Utf8Char(s[|s| - 1])
  }

  predicate IsAscii(s: string)
  {
    forall i :: 0 <= i < |s| ==> s[i] as int < 0x80
  }

  /** An ASCII string is encoded byte for byte, and decoding its encoding
      gives it back. */
  lemma {:induction false} AsciiRoundTrip(s: string)
    requires IsAscii(s)
    ensures |Utf8(s)| == |s|
    ensures AsciiText(Utf8(s)) == s
    decreases |s|
  {
    if s != [] {
      var s', x := s[..|s| - 1], s[|s| - 1];
      AsciiPrefix(s);
      AsciiRoundTrip(s');
      Utf8AsciiSnoc(s);
      AsciiTextSnoc(Utf8(s'), x);
      LastSplit(s);
    }
  }

  lemma AsciiPrefix(s: string)
    requires IsAscii(s) && s != []
    ensures IsAscii(s[..|s| - 1]) && s[|s| - 1] as int < 0x80
  {
    var s' := s[..|s| - 1];
    forall i | 0 <= i < |s'|
      ensures s'[i] as int < 0x80
    {
      assert s'[i] == s[i];
    }
  }

  lemma Utf8AsciiSnoc(s: string)
    requires s != [] && s[|s| - 1] as int < 0x80
    ensures Utf8(s) == Utf8(s[..|s| - 1]) + [s[|s| - 1] as int]
  {
    var x := s[|s| - 1];
    assert Utf8Char(x) == [x as int];
  }

  lemma AsciiTextSnoc(b: seq<Byte>, c: char)
    requires c as int < 0x80
    ensures AsciiText(b + [c as int]) == AsciiText(b) + [c]
  {
    var x: Byte := c as int;
    assert (b + [x])[..|b|] == b;
    assert x as char == c;
  }

  lemma LastSplit<T>(s: seq<T>)
    requires s != []
    ensures s == s[..|s| - 1] + [s[|s| - 1]]
  {
  }

  /** An ASCII string is encoded as its own character codes. */
  lemma {:induction false} AsciiBytes(s: string)
    requires IsAscii(s)
    ensures |Utf8(s)| == |s|
    ensures forall k :: 0 <= k < |s| ==> Utf8(s)[k] == s[k] as int
    decreases |s|
  {
    if s != [] {
      AsciiBytes(s[..|s| - 1]);
    }
  }

  lemma AsciiSingle(x: Byte)
    requires x < 0x80
    ensures AsciiText([x]) == [x as char]
  {
    assert [x][..0] == [];
  }

  // ---------------------------------------------------------------- search

  /** `pat` occurs in `s` starting at index `k`. */
  predicate OccursAt(s: string, pat: string, k: nat)
  {
    k + |pat| <= |s| && s[k..k + |pat|] == pat
  }

  /** Index of the first occurrence of `pat` in `s` at or after `from`, or -1,
      as `s.find(pat, from)` answers. */
  function Find(s: string, pat: string, from: nat): (r: int)
    ensures r == -1 || (from <= r && OccursAt(s, pat, r))
    ensures r == -1 <==> forall k :: from <= k ==> !OccursAt(s, pat, k)
    ensures r != -1 ==> forall k :: from <= k < r ==> !OccursAt(s, pat, k)
    decreases |s| - from
  {
    if from + |pat| > |s| then -1
    else if OccursAt(s, pat, from) then from
    else Find(s, pat, from + 1)
  }

  /** `pat in s`. */
  predicate Contains(s: string, pat: string)
  {
    Find(s, pat, 0) != -1
  }

  lemma ContainsIff(s: string, pat: string)
    ensures Contains(s, pat) <==> exists k :: OccursAt(s, pat, k)
  {
  }

  /** The character at offset `n` of an occurrence of `pat`. */
  lemma OccursAtChar(s: string, pat: string, k: nat, n: nat)
    requires OccursAt(s, pat, k) && n < |pat|
    ensures s[k + n] == pat[n]
  {
    assert s[k..k + |pat|][n] == s[k + n];
  }

  /** A single mismatching character rules an occurrence out. */
  lemma NotOccursAt(s: string, pat: string, k: nat, n: nat)
    requires n < |pat| && k + n < |s| && s[k + n] != pat[n]
    ensures !OccursAt(s, pat, k)
  {
    if k + |pat| <= |s| {
      assert s[k..k + |pat|][n] == s[k + n];
    }
  }

  /** `Find` answers `k` when `pat` occurs at `k` and nowhere between `from`
      and `k`. */
  lemma FindAt(s: string, pat: string, from: nat, k: nat)
    requires from <= k && OccursAt(s, pat, k)
    requires forall j :: from <= j < k ==> !OccursAt(s, pat, j)
    ensures Find(s, pat, from) == k
  {
  }

  /** A one-character pattern occurs exactly where that character stands. */
  lemma OccursAtSingle(s: string, c: char, k: nat)
    ensures OccursAt(s, [c], k) <==> k < |s| && s[k] == c
  {
    if k < |s| {
      assert s[k..k + 1] == [s[k]];
    }
  }

  /** `c in s` for a single character, as a membership test. */
  lemma ContainsChar(s: string, c: char)
    ensures Contains(s, [c]) <==> c in s
  {
    if c in s {
      var k :| 0 <= k < |s| && s[k] == c;
      OccursAtSingle(s, c, k);
    }
    forall k | OccursAt(s, [c], k)
      ensures c in s
    {
      OccursAtSingle(s, c, k);
    }
  }

  /** The index the slice `s[a:b]` uses for bound `n`: a negative bound counts
      from the end, and every bound is clamped to 0..len. */
  function SliceIndex(n: int, len: nat): (r: nat)
    ensures r <= len
    ensures 0 <= n <= len ==> r == n
    ensures n < 0 && 0 <= len + n ==> r == len + n
  {
    if n < 0 then (if n + len < 0 then 0 else n + len)
    else if n > len then len
    else n
  }

  /** The slice `s[a:b]` with the source language's index rules. */
  function Slice(s: string, a: int, b: int): (r: string)
    ensures |r| <= |s|
    ensures 0 <= a <= b <= |s| ==> r == s[a..b]
    ensures b == -1 && 0 <= a < |s| ==> r == s[a..|s| - 1]
    ensures 0 <= b <= a ==> r == []
  {
    var i, j := SliceIndex(a, |s|), SliceIndex(b, |s|);
    if i < j then s[i..j] else []
  }

  // ---------------------------------------------------------------- strip

  /** The characters `str.strip()` removes, within ASCII: tab, line feed,
      vertical tab, form feed, carriage return, the four separators
      0x1C-0x1F and the space. */
  predicate IsSpace(c: char)
  {
    var n := c as int;
    n == 0x20 || 0x09 <= n <= 0x0D || 0x1C <= n <= 0x1F
  }

  /** Index of the first non-space character at or after `i`, or `|s|`. */
  function SkipSpaces(s: string, i: nat): (r: nat)
    requires i <= |s|
    ensures i <= r <= |s|
    ensures forall k :: i <= k < r ==> IsSpace(s[k])
    ensures r < |s| ==> !IsSpace(s[r])
    decreases |s| - i
  {
    if i < |s| && IsSpace(s[i]) then SkipSpaces(s, i + 1) else i
  }

  /** One past the last non-space character before `j`, but not below `i`. */
  function SkipSpacesBack(s: string, i: nat, j: nat): (r: nat)
    requires i <= j <= |s|
    ensures i <= r <= j
    ensures forall k :: r <= k < j ==> IsSpace(s[k])
    ensures r > i ==> !IsSpace(s[r - 1])
    decreases j
  {
    if j > i && IsSpace(s[j - 1]) then SkipSpacesBack(s, i, j - 1) else j
  }

  /** `s.strip()`: the part of `s` between its leading and trailing spaces. */
  function Strip(s: string): (r: string)
    ensures |r| <= |s|
    ensures r == [] || (!IsSpace(r[0]) && !IsSpace(r[|r| - 1]))
  {
    var i := SkipSpaces(s, 0);
    var j := SkipSpacesBack(s, i, |s|);
    s[i..j]
  }

  /** Stripping keeps exactly the characters between the leading and the
      trailing run of spaces. */
  lemma StripIsInnerSpan(s: string)
    ensures exists i, j ::
              && 0 <= i <= j <= |s| && Strip(s) == s[i..j]
              && (forall k :: 0 <= k < i ==> IsSpace(s[k]))
              && (forall k :: j <= k < |s| ==> IsSpace(s[k]))
  {
    var i := SkipSpaces(s, 0);
    var j := SkipSpacesBack(s, i, |s|);
    assert Strip(s) == s[i..j];
  }

  /** A string without surrounding spaces is left unchanged. */
  lemma StripUnspaced(s: string)
    requires s == [] || (!IsSpace(s[0]) && !IsSpace(s[|s| - 1]))
    ensures Strip(s) == s
  {
  }

  // ---------------------------------------------------------------- split and join

  /** `s.split(sep)`: the pieces between separators, empty ones included. */
  function Split(s: string, sep: char): (parts: seq<string>)
    ensures |parts| >= 1
    decreases |s|
  {
    if s == [] then [""]
    else
      var rest := Split(s[1..], sep);
      if s[0] == sep then [""] + rest
      else [[s[0]] + rest[0]] + rest[1..]
  }

  /** `sep.join(parts)`. */
  function Join(parts: seq<string>, sep: char): string
    requires |parts| >= 1
  {
    if |parts| == 1 then parts[0] else parts[0] + [sep] + Join(parts[1..], sep)
  }

  predicate NoSep(parts: seq<string>, sep: char)
  {
    forall i :: 0 <= i < |parts| ==> sep !in parts[i]
  }

  /** Split pieces never contain the separator, and joining them restores
      the string. */
  lemma {:induction false} SplitJoin(s: string, sep: char)
    ensures NoSep(Split(s, sep), sep)
    ensures Join(Split(s, sep), sep) == s
    decreases |s|
  {
    if s != [] {
      SplitJoin(s[1..], sep);
      if s[0] == sep {
        SplitJoinAtSep(s, sep);
      } else {
        SplitJoinAtChar(s, sep);
      }
    }
  }

  lemma SplitJoinAtSep(s: string, sep: char)
    requires s != [] && s[0] == sep
    requires NoSep(Split(s[1..], sep), sep) && Join(Split(s[1..], sep), sep) == s[1..]
    ensures NoSep(Split(s, sep), sep) && Join(Split(s, sep), sep) == s
  {
    var rest := Split(s[1..], sep);
    JoinCons("", rest, sep);
    NoSepCons("", rest, sep);
    assert s == [s[0]] + s[1..];
  }

  lemma SplitJoinAtChar(s: string, sep: char)
    requires s != [] && s[0] != sep
    requires NoSep(Split(s[1..], sep), sep) && Join(Split(s[1..], sep), sep) == s[1..]
    ensures NoSep(Split(s, sep), sep) && Join(Split(s, sep), sep) == s
  {
    var rest := Split(s[1..], sep);
    var first := [s[0]] + rest[0];
    assert sep !in first by {
      assert sep !in rest[0];
    }
    NoSepTail(rest, sep);
    NoSepCons(first, rest[1..], sep);
    if |rest| > 1 {
      JoinCons(first, rest[1..], sep);
      JoinCons(rest[0], rest[1..], sep);
      assert [rest[0]] + rest[1..] == rest;
    }
    assert s == [s[0]] + s[1..];
  }

  lemma JoinCons(x: string, parts: seq<string>, sep: char)
    requires |parts| >= 1
    ensures Join([x] + parts, sep) == x + [sep] + Join(parts, sep)
  {
    assert ([x] + parts)[1..] == parts;
  }

  lemma NoSepCons(x: string, parts: seq<string>, sep: char)
    requires sep !in x && NoSep(parts, sep)
    ensures NoSep([x] + parts, sep)
  {
    forall i | 0 <= i < |parts| + 1
      ensures sep !in ([x] + parts)[i]
    {
      if i > 0 {
        assert ([x] + parts)[i] == parts[i - 1];
      }
    }
  }

  /** Joining pieces free of the separator and splitting again gives the same
      pieces. */
  lemma {:induction false} JoinSplit(parts: seq<string>, sep: char)
    requires |parts| >= 1 && NoSep(parts, sep)
    ensures Split(Join(parts, sep), sep) == parts
    decreases |parts|, |parts[0]|
  {
    if |parts| == 1 {
      SplitNoSep(parts[0], sep);
    } else if parts[0] == [] {
      NoSepTail(parts, sep);
      JoinSplit(parts[1..], sep);
      JoinEmptyHead(parts, sep);
    } else {
      var parts' := [parts[0][1..]] + parts[1..];
      NoSepShorter(parts, sep);
      JoinSplit(parts', sep);
      JoinHead(parts, sep);
      SplitHead(Join(parts, sep), sep);
      RebuildHead(parts);
    }
  }

  lemma NoSepTail(parts: seq<string>, sep: char)
    requires |parts| >= 1 && NoSep(parts, sep)
    ensures NoSep(parts[1..], sep)
  {
    forall i | 0 <= i < |parts| - 1
      ensures sep !in parts[1..][i]
    {
      assert parts[1..][i] == parts[i + 1];
    }
  }

  /** Dropping the first character of the first piece keeps the pieces free
      of the separator; that character is not the separator. */
  lemma NoSepShorter(parts: seq<string>, sep: char)
    requires |parts| >= 1 && parts[0] != [] && NoSep(parts, sep)
    ensures NoSep([parts[0][1..]] + parts[1..], sep)
    ensures parts[0][0] != sep
  {
    var p := parts[0];
    var parts' := [p[1..]] + parts[1..];
    assert p[0] in p;
    forall i | 0 <= i < |parts'|
      ensures sep !in parts'[i]
    {
      if i == 0 {
        assert forall c :: c in p[1..] ==> c in p;
      } else {
        assert parts'[i] == parts[i];
      }
    }
  }

  lemma JoinEmptyHead(parts: seq<string>, sep: char)
    requires |parts| >= 2 && parts[0] == []
    requires Split(Join(parts[1..], sep), sep) == parts[1..]
    ensures Split(Join(parts, sep), sep) == parts
  {
    var tail := Join(parts[1..], sep);
    assert Join(parts, sep) == [sep] + tail;
    assert ([sep] + tail)[1..] == tail;
    assert [""] + parts[1..] == parts;
  }

  /** The first character of a non-empty first piece leads the joined text. */
  lemma JoinHead(parts: seq<string>, sep: char)
    requires |parts| >= 1 && parts[0] != []
    ensures var s := Join(parts, sep);
            s != [] && s[0] == parts[0][0] && s[1..] == Join([parts[0][1..]] + parts[1..], sep)
  {
    var p := parts[0];
    var parts' := [p[1..]] + parts[1..];
    assert parts'[1..] == parts[1..];
    if |parts| == 1 {
      assert Join(parts, sep) == p;
    } else {
      assert Join(parts, sep) == p + [sep] + Join(parts[1..], sep);
      assert Join(parts', sep) == p[1..] + [sep] + Join(parts[1..], sep);
    }
  }

  /** How splitting treats a leading non-separator character. */
  lemma SplitHead(s: string, sep: char)
    requires s != [] && s[0] != sep
    ensures var rest := Split(s[1..], sep);
            Split(s, sep) == [[s[0]] + rest[0]] + rest[1..]
  {
  }

  lemma RebuildHead(parts: seq<string>)
    requires |parts| >= 1 && parts[0] != []
    ensures var q := [parts[0][1..]] + parts[1..];
            [[parts[0][0]] + q[0]] + q[1..] == parts
  {
    var p := parts[0];
    var q := [p[1..]] + parts[1..];
    assert q[0] == p[1..] && q[1..] == parts[1..];
    assert [p[0]] + p[1..] == p;
  }

  /** Joining strings of digits gives ASCII text when the separator is
      ASCII. */
  lemma {:induction false} JoinDigits(parts: seq<string>, sep: char)
    requires |parts| >= 1 && sep as int < 0x80
    requires forall k :: 0 <= k < |parts| ==> AllDigits(parts[k])
    ensures IsAscii(Join(parts, sep))
    decreases |parts|
  {
    if |parts| > 1 {
      JoinDigits(parts[1..], sep);
      var tail := Join(parts[1..], sep);
      var s := Join(parts, sep);
      assert s == parts[0] + [sep] + tail;
      forall k | 0 <= k < |s|
        ensures s[k] as int < 0x80
      {
        if k < |parts[0]| {
          assert s[k] == parts[0][k];
        } else if k > |parts[0]| {
          assert s[k] == tail[k - |parts[0]| - 1];
        }
      }
    }
  }

  lemma {:induction false} SplitNoSep(s: string, sep: char)
    requires sep !in s
    ensures Split(s, sep) == [s]
    decreases |s|
  {
    if s != [] {
      assert sep !in s[1..] by { assert forall c :: c in s[1..] ==> c in s; }
      SplitNoSep(s[1..], sep);
      assert s[0] in s;
      assert [s[0]] + s[1..] == s;
    }
  }

  /** Number of occurrences of `c` in `s`. */
  function Count(s: string, c: char): nat
  {
    if s == [] then 0 else (if s[0] == c then 1 else 0) + Count(s[1..], c)
  }

  /** There is one more piece than there are separators. */
  lemma {:induction false} SplitCount(s: string, sep: char)
    ensures |Split(s, sep)| == Count(s, sep) + 1
    decreases |s|
  {
    if s != [] {
      SplitCount(s[1..], sep);
    }
  }

  /** The pieces `p` with `c` appended to the last one. */
  function AppendLast(p: seq<string>, c: char): (q: seq<string>)
    requires |p| >= 1
    ensures |q| == |p| && q[|q| - 1] == p[|p| - 1] + [c]
    ensures forall i :: 0 <= i < |p| - 1 ==> q[i] == p[i]
  {
    p[..|p| - 1] + [p[|p| - 1] + [c]]
  }

  lemma AppendLastCons(x: string, p: seq<string>, c: char)
    requires |p| >= 1
    ensures AppendLast([x] + p, c) == [x] + AppendLast(p, c)
  {
    assert ([x] + p)[..|p|] == [x] + p[..|p| - 1];
  }

  /** Splitting text that ends in one more non-separator character puts that
      character at the end of the last piece. */
  lemma {:induction false} SplitSnoc(s: string, c: char, sep: char)
    requires c != sep
    ensures Split(s + [c], sep) == AppendLast(Split(s, sep), c)
    decreases |s|
  {
    if s == [] {
      assert ([c])[1..] == [];
      assert Split([c], sep) == [[c] + ""];
      assert [c] + "" == "" + [c];
    } else {
      assert (s + [c])[1..] == s[1..] + [c];
      SplitSnoc(s[1..], c, sep);
      var rest := Split(s[1..], sep);
      if s[0] == sep {
        AppendLastCons("", rest, c);
      } else if |rest| == 1 {
        assert [s[0]] + (rest[0] + [c]) == ([s[0]] + rest[0]) + [c];
      } else {
        var r := AppendLast(rest, c);
        assert r[1..] == AppendLast(rest[1..], c);
        AppendLastCons([s[0]] + rest[0], rest[1..], c);
      }
    }
  }

  lemma {:induction false} CountAppend(a: string, b: string, c: char)
    ensures Count(a + b, c) == Count(a, c) + Count(b, c)
    decreases |a|
  {
    if a != [] {
      assert a + b != [] && (a + b)[0] == a[0];
      assert (a + b)[1..] == a[1..] + b;
      CountAppend(a[1..], b, c);
      assert Count(a + b, c) == (if a[0] == c then 1 else 0) + Count(a[1..] + b, c);
    } else {
      assert a + b == b;
    }
  }

  /** Number of bytes of `b` equal to `x`. */
  function ByteCount(b: seq<Byte>, x: Byte): nat
  {
    if b == [] then 0 else ByteCount(b[..|b| - 1], x) + (if b[|b| - 1] == x then 1 else 0)
  }

  /** Decoding keeps exactly the ASCII bytes, so an ASCII character occurs in
      the text as often as its byte occurs in the input. */
  lemma {:induction false} AsciiCount(b: seq<Byte>, c: char)
    requires c as int < 0x80
    ensures Count(AsciiText(b), c) == ByteCount(b, c as int)
    decreases |b|
  {
    if b != [] {
      var x := b[|b| - 1];
      AsciiCount(b[..|b| - 1], c);
      CountAppend(AsciiText(b[..|b| - 1]), AsciiChar(x), c);
      if x < 0x80 {
        assert AsciiChar(x)[1..] == [];
      }
    }
  }

  // ---------------------------------------------------------------- decimal numbers

  predicate IsDigit(c: char)
  {
    '0' <= c <= '9'
  }

  predicate AllDigits(s: string)
  {
    forall i :: 0 <= i < |s| ==> IsDigit(s[i])
  }

  function DigitChar(d: nat): (c: char)
    requires d < 10
    ensures IsDigit(c) && c as int - '0' as int == d
  {
    (d + '0' as int) as char
  }

  /** Value of a string of decimal digits, most significant first. */
  function DigitsValue(s: string): nat
    requires AllDigits(s)
  {
    if s == [] then 0 else DigitsValue(s[..|s| - 1]) * 10 + (s[|s| - 1] as int - '0' as int)
  }

  /** `int(s)` for a string of decimal digits; anything else is a parse
      error. */
  function ParseNat(s: string): (r: Option<nat>)
    ensures r.Some? <==> s != [] && AllDigits(s)
  {
    if s != [] && AllDigits(s) then Some(DigitsValue(s)) else None
  }

  /** Decimal representation of `n` without leading zeros, as `str(n)`. */
  function Decimal(n: nat): (s: string)
    ensures s != [] && AllDigits(s)
    ensures (|s| == 1) == (n < 10)
  {
    if n < 10 then [DigitChar(n)] else Decimal(n / 10) + [DigitChar(n % 10)]
  }

  /** Reading back a printed number gives the number. */
  lemma {:induction false} DecimalRoundTrip(n: nat)
    ensures ParseNat(Decimal(n)) == Some(n)
  {
    DecimalValue(n);
  }

  lemma {:induction false} DecimalValue(n: nat)
    ensures DigitsValue(Decimal(n)) == n
  {
    if n >= 10 {
      DecimalValue(n / 10);
      var s := Decimal(n);
      assert s[..|s| - 1] == Decimal(n / 10);
    }
  }

  /** `f"{n:02d}"`: at least two digits, zero-padded on the left. */
  function Pad2(n: nat): (s: string)
    ensures |s| >= 2 && AllDigits(s)
  {
    if n < 10 then ['0'] + Decimal(n) else Decimal(n)
  }

  /** The padded number reads back as itself. */
  lemma Pad2RoundTrip(n: nat)
    ensures ParseNat(Pad2(n)) == Some(n)
  {
    DecimalRoundTrip(n);
    if n < 10 {
      var s := Pad2(n);
      assert s[..1] == ['0'] && s[..1][..0] == [];
      assert DigitsValue(s[..1]) == 0;
    }
  }

  /** `int(s)`: surrounding whitespace, an optional sign, then decimal
      digits; anything else is a parse error. */
  function ParseInt(s: string): (r: Option<int>)
    ensures r.Some? ==> Strip(s) != []
  {
    var t := Strip(s);
    if t != [] && (t[0] == '+' || t[0] == '-') then
      match ParseNat(t[1..])
      case Some(n) =>
        var v: int := n;
        if t[0] == '-' then Some(-v) else Some(v)
      case None => None
    else
      match ParseNat(t)
      case Some(n) => Some(n)
      case None => None
  }

  /** A printed natural number reads back as itself. */
  lemma ParseIntDecimal(n: nat)
    ensures ParseInt(Decimal(n)) == Some(n)
  {
    var d := Decimal(n);
    StripUnspaced(d);
    DecimalRoundTrip(n);
  }

  /** Digits followed by a character that is neither a digit nor a space do
      not parse. */
  lemma ParseIntRejects(d: string, c: char)
    requires d != [] && AllDigits(d) && !IsDigit(c) && !IsSpace(c)
    ensures ParseInt(d + [c]) == None
  {
    var t := d + [c];
    assert t[0] == d[0] && t[|t| - 1] == c;
    StripUnspaced(t);
    assert !AllDigits(t) by { assert !IsDigit(t[|t| - 1]); }
  }
}
