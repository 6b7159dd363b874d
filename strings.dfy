/**
 * The .NET string operations the controllers rely on, over `string` = `seq<char>`:
 * `Split(',')`, the string interpolation that joins columns, `Replace` of one character,
 * `Contains`, `Trim`, `ToLower`, `string.IsNullOrWhiteSpace` and `Path.GetExtension`.
 */
module Strings {
  import opened Wrappers

  /** `s ?? ""`: how interpolation prints a null string. */
  function TextOf(s: Option<string>): string {
    s.GetOr("")
  }

  /** Number of occurrences of `ch` in `s`. */
  function Occurrences(s: string, ch: char): (n: nat)
    ensures n <= |s|
    ensures n == 0 <==> ch !in s
  {
    if s == [] then 0
    else (if s[0] == ch then 1 else 0) + Occurrences(s[1..], ch)
  }

  // ---------------------------------------------------------------------------
  // Split and Join
  // ---------------------------------------------------------------------------

  /** `s.Split(sep)`: the pieces between separators; never empty, "" gives [""]. */
  function Split(s: string, sep: char): (r: seq<string>)
    ensures |r| >= 1
    ensures forall k :: 0 <= k < |r| ==> sep !in r[k]
    decreases |s|
  {
    if s == [] then [""]
    else if s[0] == sep then [""] + Split(s[1..], sep)
    else
      var rest := Split(s[1..], sep);
      [[s[0]] + rest[0]] + rest[1..]
  }

  /** The fields written one after another with `sep` between them. */
  function Join(fields: seq<string>, sep: char): string
  {
    if fields == [] then ""
    else if |fields| == 1 then fields[0]
    else fields[0] + [sep] + Join(fields[1..], sep)
  }

  lemma Join2(a: string, b: string, sep: char)
    ensures Join([a, b], sep) == a + [sep] + b
  {
    assert [a, b][1..] == [b];
  }

  lemma Join3(a: string, b: string, c: string, sep: char)
    ensures Join([a, b, c], sep) == a + [sep] + b + [sep] + c
  {
    assert [a, b, c][1..] == [b, c];
    Join2(b, c, sep);
  }

  /** There is one more piece than there are separators. */
  lemma {:induction false} SplitCount(s: string, sep: char)
    ensures |Split(s, sep)| == Occurrences(s, sep) + 1
    decreases |s|
  {
    if s != [] {
      SplitCount(s[1..], sep);
    }
  }

  /** A string without a separator is one piece. */
  lemma {:induction false} SplitWithoutSeparator(s: string, sep: char)
    requires sep !in s
    ensures Split(s, sep) == [s]
    decreases |s|
  {
    if s != [] {
      SplitWithoutSeparator(s[1..], sep);
      assert [s[0]] + s[1..] == s;
    }
  }

  /** Splitting at the first separator. */
  lemma {:induction false} SplitAtFirstSeparator(a: string, sep: char, b: string)
    requires sep !in a
    ensures Split(a + [sep] + b, sep) == [a] + Split(b, sep)
    decreases |a|
  {
    var s := a + [sep] + b;
    if a == [] {
      assert s[1..] == b;
    } else {
      assert s[1..] == a[1..] + [sep] + b;
      SplitAtFirstSeparator(a[1..], sep, b);
      assert [a[0]] + a[1..] == a;
    }
  }

  /** Joining fields that hold no separator and splitting again gives the fields back. */
  lemma {:induction false} SplitJoin(fields: seq<string>, sep: char)
    requires |fields| >= 1
    requires forall k :: 0 <= k < |fields| ==> sep !in fields[k]
    ensures Split(Join(fields, sep), sep) == fields
    decreases |fields|
  {
    if |fields| == 1 {
      SplitWithoutSeparator(fields[0], sep);
    } else {
      SplitJoin(fields[1..], sep);
      SplitAtFirstSeparator(fields[0], sep, Join(fields[1..], sep));
      assert [fields[0]] + fields[1..] == fields;
    }
  }

  lemma {:induction false} OccurrencesAppend(a: string, b: string, ch: char)
    ensures Occurrences(a + b, ch) == Occurrences(a, ch) + Occurrences(b, ch)
    decreases |a|
  {
    if a == [] {
      assert a + b == b;
    } else {
      assert (a + b)[1..] == a[1..] + b;
      OccurrencesAppend(a[1..], b, ch);
    }
  }

  /** Joined fields split into at least as many pieces, whatever the fields hold. */
  lemma {:induction false} SplitJoinCount(fields: seq<string>, sep: char)
    requires |fields| >= 1
    ensures |Split(Join(fields, sep), sep)| >= |fields|
    decreases |fields|
  {
    SplitCount(Join(fields, sep), sep);
    JoinOccurrences(fields, sep);
  }

  lemma {:induction false} JoinOccurrences(fields: seq<string>, sep: char)
    requires |fields| >= 1
    ensures Occurrences(Join(fields, sep), sep) >= |fields| - 1
    decreases |fields|
  {
    if |fields| > 1 {
      JoinOccurrences(fields[1..], sep);
      OccurrencesAppend(fields[0] + [sep], Join(fields[1..], sep), sep);
      OccurrencesAppend(fields[0], [sep], sep);
    }
  }

  /** The first piece of a joined text is the first field, when that field holds no separator. */
  lemma SplitJoinFirst(fields: seq<string>, sep: char)
    requires |fields| >= 1 && sep !in fields[0]
    ensures Split(Join(fields, sep), sep)[0] == fields[0]
  {
    if |fields| == 1 {
      SplitWithoutSeparator(fields[0], sep);
    } else {
      SplitAtFirstSeparator(fields[0], sep, Join(fields[1..], sep));
    }
  }

  /** A character that occurs in no field occurs in the joined text only if it is the separator. */
  lemma {:induction false} JoinKeepsOut(fields: seq<string>, sep: char, ch: char)
    requires ch != sep
    requires forall k :: 0 <= k < |fields| ==> ch !in fields[k]
    ensures ch !in Join(fields, sep)
    decreases |fields|
  {
    if |fields| > 1 {
      JoinKeepsOut(fields[1..], sep, ch);
    }
  }

  // ---------------------------------------------------------------------------
  // Replace
  // ---------------------------------------------------------------------------

  /** `s.Replace(from, to)` for one-character strings. */
  function ReplaceChar(s: string, from: char, to: char): (r: string)
    ensures |r| == |s|
    ensures forall i :: 0 <= i < |s| ==> r[i] == (if s[i] == from then to else s[i])
  {
    if s == [] then []
    else [if s[0] == from then to else s[0]] + ReplaceChar(s[1..], from, to)
  }

  /** After the replacement the replaced character is gone. */
  lemma ReplaceRemoves(s: string, from: char, to: char)
    requires from != to
    ensures from !in ReplaceChar(s, from, to)
  {
    var r := ReplaceChar(s, from, to);
    forall i | 0 <= i < |r| ensures r[i] != from {
    }
  }

  /** Replacing back undoes a replacement when the target character was absent. */
  lemma ReplaceBack(s: string, from: char, to: char)
    requires to !in s
    ensures ReplaceChar(ReplaceChar(s, from, to), to, from) == s
  {
    var r := ReplaceChar(ReplaceChar(s, from, to), to, from);
    forall i | 0 <= i < |s| ensures r[i] == s[i] {
      assert s[i] != to;
    }
  }

  /** Replacing a character that does not occur changes nothing. */
  lemma ReplaceAbsent(s: string, from: char, to: char)
    requires from !in s
    ensures ReplaceChar(s, from, to) == s
  {
    var r := ReplaceChar(s, from, to);
    forall i | 0 <= i < |s| ensures r[i] == s[i] {
      assert s[i] != from;
    }
  }

  // ---------------------------------------------------------------------------
  // Contains
  // ---------------------------------------------------------------------------

  /** `s.Contains(t)`: ordinal, case-sensitive substring test; every string contains "". */
  predicate Contains(s: string, t: string)
    decreases |s|
  {
    t <= s || (s != [] && Contains(s[1..], t))
  }

  /** `t` occurs in `s` starting at position `k`. */
  predicate OccursAt(s: string, t: string, k: int) {
    0 <= k <= |s| - |t| && s[k..k + |t|] == t
  }

  /** `Contains` means: `t` occurs at some position of `s`. */
  lemma {:induction false} ContainsAt(s: string, t: string)
    ensures Contains(s, t) <==> exists k :: OccursAt(s, t, k)
    decreases |s|
  {
    if |t| <= |s| && s[..|t|] == t {
      assert OccursAt(s, t, 0);
    } else if s != [] {
      ContainsAt(s[1..], t);
      if exists k :: OccursAt(s, t, k) {
        var k :| OccursAt(s, t, k);
        assert k != 0;
        assert OccursAt(s[1..], t, k - 1) by { assert s[1..][k - 1..k - 1 + |t|] == s[k..k + |t|]; }
      }
      if exists k :: OccursAt(s[1..], t, k) {
        var k :| OccursAt(s[1..], t, k);
        assert OccursAt(s, t, k + 1) by { assert s[1..][k..k + |t|] == s[k + 1..k + 1 + |t|]; }
      }
    }
  }

  // ---------------------------------------------------------------------------
  // White space, Trim, ToLower
  // ---------------------------------------------------------------------------

  /** `char.IsWhiteSpace`, restricted to the Latin-1 range. */
  predicate IsWhiteSpace(c: char) {
    (9 <= c as int <= 13) || c as int == 32 || c as int == 0x85 || c as int == 0xA0
  }

  /** `string.IsNullOrWhiteSpace` */
  predicate IsNullOrWhiteSpace(s: Option<string>) {
    match s
    case None => true
    case Some(t) => forall i :: 0 <= i < |t| ==> IsWhiteSpace(t[i])
  }

  /** The number of white-space characters `s` starts with. */
  function LeadingWhiteSpace(s: string): (n: nat)
    ensures n <= |s|
    decreases |s|
  {
    if s != [] && IsWhiteSpace(s[0]) then 1 + LeadingWhiteSpace(s[1..]) else 0
  }

  /** The number of white-space characters `s` ends with. */
  function TrailingWhiteSpace(s: string): (n: nat)
    ensures n <= |s|
    decreases |s|
  {
    if s != [] && IsWhiteSpace(s[|s| - 1]) then 1 + TrailingWhiteSpace(s[..|s| - 1]) else 0
  }

  /** `s.TrimStart()` */
  function TrimStart(s: string): string {
    s[LeadingWhiteSpace(s)..]
  }

  /** `s.TrimEnd()` */
  function TrimEnd(s: string): string {
    s[..|s| - TrailingWhiteSpace(s)]
  }

  /** `s.Trim()` */
  function Trim(s: string): string {
    TrimEnd(TrimStart(s))
  }

  /** What `TrimStart` drops is white space, and what it keeps does not start with any. */
  lemma {:induction false} LeadingWhiteSpaceDropped(s: string)
    ensures forall k :: 0 <= k < LeadingWhiteSpace(s) ==> IsWhiteSpace(s[k])
    ensures LeadingWhiteSpace(s) < |s| ==> !IsWhiteSpace(s[LeadingWhiteSpace(s)])
    decreases |s|
  {
    if s != [] && IsWhiteSpace(s[0]) {
      LeadingWhiteSpaceDropped(s[1..]);
    }
  }

  /** What `TrimEnd` drops is white space, and what it keeps does not end with any. */
  lemma {:induction false} TrailingWhiteSpaceDropped(s: string)
    ensures forall k :: |s| - TrailingWhiteSpace(s) <= k < |s| ==> IsWhiteSpace(s[k])
    ensures TrailingWhiteSpace(s) < |s| ==> !IsWhiteSpace(s[|s| - TrailingWhiteSpace(s) - 1])
    decreases |s|
  {
    if s != [] && IsWhiteSpace(s[|s| - 1]) {
      TrailingWhiteSpaceDropped(s[..|s| - 1]);
    }
  }

  /** The trimmed text neither starts nor ends with white space. */
  lemma TrimmedEnds(s: string)
    ensures var t := Trim(s); t == [] || (!IsWhiteSpace(t[0]) && !IsWhiteSpace(t[|t| - 1]))
  {
    LeadingWhiteSpaceDropped(s);
    TrailingWhiteSpaceDropped(TrimStart(s));
  }

  /** A string that neither starts nor ends with white space is its own trim. */
  lemma TrimUntouched(s: string)
    requires s == [] || (!IsWhiteSpace(s[0]) && !IsWhiteSpace(s[|s| - 1]))
    ensures Trim(s) == s
  {
  }

  /** White space in front is counted on top of what follows it. */
  lemma {:induction false} LeadingPad(pad: string, x: string)
    requires forall k :: 0 <= k < |pad| ==> IsWhiteSpace(pad[k])
    ensures LeadingWhiteSpace(pad + x) == |pad| + LeadingWhiteSpace(x)
    decreases |pad|
  {
    if pad == [] {
      assert pad + x == x;
    } else {
      assert (pad + x)[0] == pad[0];
      assert (pad + x)[1..] == pad[1..] + x;
      LeadingPad(pad[1..], x);
    }
  }

  /** White space behind is counted on top of what precedes it. */
  lemma {:induction false} TrailingPad(x: string, pad: string)
    requires forall k :: 0 <= k < |pad| ==> IsWhiteSpace(pad[k])
    ensures TrailingWhiteSpace(x + pad) == TrailingWhiteSpace(x) + |pad|
    decreases |pad|
  {
    if pad == [] {
      assert x + pad == x;
    } else {
      var y := x + pad;
      assert y[|y| - 1] == pad[|pad| - 1];
      assert y[..|y| - 1] == x + pad[..|pad| - 1];
      TrailingPad(x, pad[..|pad| - 1]);
    }
  }

  /** `Trim` takes off white space put around a text that neither starts nor ends with any. */
  lemma TrimPadded(pad: string, s: string)
    requires forall k :: 0 <= k < |pad| ==> IsWhiteSpace(pad[k])
    requires s != [] && !IsWhiteSpace(s[0]) && !IsWhiteSpace(s[|s| - 1])
    ensures Trim(pad + s + pad) == s
  {
    LeadingPad(pad, s + pad);
    assert pad + s + pad == pad + (s + pad);
    assert (pad + (s + pad))[|pad|..] == s + pad;
    assert (s + pad)[0] == s[0];
    TrailingPad(s, pad);
    assert (s + pad)[..|s|] == s;
  }

  /** `s.ToLower()` on the ASCII letters. */
  function ToLower(s: string): (r: string)
    ensures |r| == |s|
  {
    seq(|s|, i requires 0 <= i < |s| => if 'A' <= s[i] <= 'Z' then (s[i] as int + 32) as char else s[i])
  }

  /** Lower-casing is idempotent, so a lower-cased key compares case-insensitively. */
  lemma ToLowerIdempotent(s: string)
    ensures ToLower(ToLower(s)) == ToLower(s)
  {
  }

  // ---------------------------------------------------------------------------
  // Path.GetExtension
  // ---------------------------------------------------------------------------

  predicate IsDirectorySeparator(c: char) {
    c == '/' || c == '\\'
  }

  /** Scan of `Path.GetExtension` from position `i` towards the front. */
  function ExtensionFrom(path: string, i: int): string
    requires -1 <= i < |path|
    decreases i + 1
  {
    if i < 0 then ""
    else if path[i] == '.' then (if i == |path| - 1 then "" else path[i..])
    else if IsDirectorySeparator(path[i]) then ""
    else ExtensionFrom(path, i - 1)
  }

  /**
   * `Path.GetExtension(path)`: from the last '.' of the file name to the end, or ""
   * when the name has no '.' or ends with it.
   */
  function GetExtension(path: string): (ext: string)
    ensures ext == [] || (2 <= |ext| <= |path| && ext[0] == '.' && ext == path[|path| - |ext|..] && '.' !in ext[1..])
    ensures forall k :: 0 <= k < |ext| ==> !IsDirectorySeparator(ext[k])
  {
    ExtensionFromShape(path, |path| - 1);
    ExtensionFrom(path, |path| - 1)
  }

  lemma {:induction false} ExtensionFromShape(path: string, i: int)
    requires -1 <= i < |path|
    requires forall k :: i < k < |path| ==> path[k] != '.' && !IsDirectorySeparator(path[k])
    ensures var ext := ExtensionFrom(path, i);
      (ext == [] || (2 <= |ext| <= |path| && ext[0] == '.' && ext == path[|path| - |ext|..] && '.' !in ext[1..])) &&
      forall k :: 0 <= k < |ext| ==> !IsDirectorySeparator(ext[k])
    decreases i + 1
  {
    if i >= 0 && path[i] != '.' && !IsDirectorySeparator(path[i]) {
      ExtensionFromShape(path, i - 1);
    } else if i >= 0 && path[i] == '.' && i != |path| - 1 {
      var ext := path[i..];
      assert ext == path[|path| - |ext|..];
      forall k | 0 <= k < |ext[1..]| ensures ext[1..][k] != '.' {
        assert ext[1..][k] == path[i + 1 + k];
      }
    }
  }

  /** The extension test of the import: ".csv" in any letter case. */
  predicate HasCsvExtension(fileName: string) {
    ToLower(GetExtension(fileName)) == ".csv"
  }

  /** The extension test accepts exactly the names whose last four characters are ".csv" in any case. */
  lemma CsvExtensionIsSuffix(fileName: string)
    ensures HasCsvExtension(fileName) <==>
      |fileName| >= 4 && ToLower(fileName[|fileName| - 4..]) == ".csv"
  {
    var n := |fileName|;
    var ext := GetExtension(fileName);
    if HasCsvExtension(fileName) {
      assert |ext| == 4;
      assert ext == fileName[n - 4..];
    }
    if n >= 4 && ToLower(fileName[n - 4..]) == ".csv" {
      var tail := fileName[n - 4..];
      assert tail[0] == '.' by { assert ToLower(tail)[0] == '.'; }
      forall k | n - 4 < k < n ensures fileName[k] != '.' && !IsDirectorySeparator(fileName[k]) {
        assert ToLower(tail)[k - (n - 4)] in "csv";
      }
      ExtensionFromDot(fileName, n - 1, n - 4);
      assert ext == tail;
    }
  }

  lemma {:induction false} ExtensionFromDot(path: string, i: int, d: int)
    requires 0 <= d < i < |path| && path[d] == '.' && d != |path| - 1
    requires forall k :: d < k < |path| ==> path[k] != '.' && !IsDirectorySeparator(path[k])
    ensures ExtensionFrom(path, i) == path[d..]
    decreases i - d
  {
    if i - 1 > d {
      ExtensionFromDot(path, i - 1, d);
    }
  }
}
