/**
 * The Python string and path operations that the ingestion passes use to name
 * their outputs and to judge text: str.strip, str.split, str.replace, str.upper,
 * str(int), int(digits), os.path.basename, os.path.splitext and os.path.join
 * (POSIX flavour).
 */
module Text {
  import opened Wrappers

  /** Python's str.isspace() on one character: the characters of Unicode category
      Zs and of bidirectional class WS, B or S, which include the separators
      U+001C to U+001F besides the White_Space characters. */
  predicate IsSpace(c: char) {
    || c == ' '
    || ('\t' <= c <= '\r')
    || ('\U{1C}' <= c <= '\U{1F}')
    || c == '\U{85}' || c == '\U{A0}' || c == '\U{1680}'
    || ('\U{2000}' <= c <= '\U{200A}')
    || c == '\U{2028}' || c == '\U{2029}' || c == '\U{202F}' || c == '\U{205F}' || c == '\U{3000}'
  }

  predicate IsAsciiDigit(c: char) { '0' <= c <= '9' }

  predicate IsAsciiLetter(c: char) { ('a' <= c <= 'z') || ('A' <= c <= 'Z') }

  predicate AllDigits(s: string) { forall k :: 0 <= k < |s| ==> IsAsciiDigit(s[k]) }

  // ---------------------------------------------------------------------------
  // strip

  /** Drops leading characters satisfying `drop` (the left half of Python's strip). */
  function StripLeft(s: string, drop: char -> bool): (r: string)
    ensures |r| <= |s| && r == s[|s| - |r|..]
    ensures forall k :: 0 <= k < |s| - |r| ==> drop(s[k])
    ensures r != [] ==> !drop(r[0])
    decreases |s|
  {
    if s != [] && drop(s[0]) then StripLeft(s[1..], drop) else s
  }

  /** Drops trailing characters satisfying `drop` (the right half of Python's strip). */
  function StripRight(s: string, drop: char -> bool): (r: string)
    ensures |r| <= |s| && r == s[..|r|]
    ensures forall k :: |r| <= k < |s| ==> drop(s[k])
    ensures r != [] ==> !drop(r[|r| - 1])
    decreases |s|
  {
    if s != [] && drop(s[|s| - 1]) then StripRight(s[..|s| - 1], drop) else s
  }

  /** Python's s.strip(chars) where `drop` says which characters belong to chars. */
  function Strip(s: string, drop: char -> bool): string {
    StripRight(StripLeft(s, drop), drop)
  }

  /** Python's s.strip(): removes leading and trailing whitespace. */
  function Trim(s: string): string {
    Strip(s, IsSpace)
  }

  predicate IsSlash(c: char) { c == '/' }

  /** Python's s.strip('/'). */
  function StripSlashes(s: string): string {
    Strip(s, IsSlash)
  }

  /** strip(chars) returns the slice of s that starts after the leading run of
      chars (StripLeft) and stops before the trailing run (StripRight). */
  lemma StripSlice(s: string, drop: char -> bool)
    ensures |s| - |StripLeft(s, drop)| + |Strip(s, drop)| <= |s|
    ensures Strip(s, drop) == s[|s| - |StripLeft(s, drop)|..|s| - |StripLeft(s, drop)| + |Strip(s, drop)|]
  {
    PrefixOfSuffix(s, StripLeft(s, drop), Strip(s, drop));
  }

  /** A prefix r of a suffix l of s is the slice of s where l starts. */
  lemma PrefixOfSuffix(s: string, l: string, r: string)
    requires |l| <= |s| && l == s[|s| - |l|..]
    requires |r| <= |l| && r == l[..|r|]
    ensures |s| - |l| + |r| <= |s| && r == s[|s| - |l|..|s| - |l| + |r|]
  {
  }

  /** strip(chars) returns text that neither starts nor ends with one of chars. */
  lemma StripEnds(s: string, drop: char -> bool)
    ensures var r := Strip(s, drop); r != [] ==> !drop(r[0]) && !drop(r[|r| - 1])
  {
    var l := StripLeft(s, drop);
    var r := StripRight(l, drop);
    if r != [] {
      assert r[0] == l[0];
    }
  }

  /** strip(chars) returns text holding none of chars unchanged. */
  lemma StripNothing(s: string, drop: char -> bool)
    requires forall k :: 0 <= k < |s| ==> !drop(s[k])
    ensures Strip(s, drop) == s
  {
    if s != [] {
      assert !drop(s[0]);
      assert StripLeft(s, drop) == s;
      assert !drop(s[|s| - 1]);
    }
  }

  /** The text is empty after strip() exactly when every character is whitespace. */
  lemma TrimEmptyIff(s: string)
    ensures Trim(s) == [] <==> forall k :: 0 <= k < |s| ==> IsSpace(s[k])
  {
  }

  /** strip() removes nothing from text that already is stripped. */
  lemma TrimIdempotent(s: string)
    ensures Trim(Trim(s)) == Trim(s)
  {
    var r := Trim(s);
    if r != [] {
      assert StripLeft(r, IsSpace) == r;
      assert StripRight(r, IsSpace) == r;
    }
  }

  // ---------------------------------------------------------------------------
  // searching

  /** First index of c in s (Python's s.find(c), None for -1). */
  function IndexOf(s: string, c: char): (r: Option<nat>)
    ensures r.None? ==> c !in s
    ensures r.Some? ==> r.value < |s| && s[r.value] == c && c !in s[..r.value]
    decreases |s|
  {
    if s == [] then None
    else if s[0] == c then Some(0)
    else match IndexOf(s[1..], c)
      case None => None
      case Some(i) => assert s[..i + 1] == [s[0]] + s[1..][..i]; Some(i + 1)
  }

  /** Last index of c in s (Python's s.rfind(c)): -1 when c does not occur. */
  function LastIndexOf(s: string, c: char): (r: int)
    ensures -1 <= r < |s|
    ensures r >= 0 ==> s[r] == c
    ensures forall k :: r < k < |s| ==> s[k] != c
    decreases |s|
  {
    if s == [] then -1
    else if s[|s| - 1] == c then |s| - 1
    else LastIndexOf(s[..|s| - 1], c)
  }

  /** The text after the last c in s, or all of s when c does not occur. */
  function AfterLast(s: string, c: char): (r: string)
    ensures c !in r
    ensures |r| <= |s| && r == s[|s| - |r|..]
    ensures |r| < |s| ==> s[|s| - |r| - 1] == c
  {
    s[LastIndexOf(s, c) + 1..]
  }

  /** s holds sub starting at index i. */
  predicate OccursAt(s: string, sub: string, i: nat) {
    i + |sub| <= |s| && s[i..i + |sub|] == sub
  }

  /** Python's `sub in s`. */
  predicate Contains(s: string, sub: string) {
    exists i: nat | i <= |s| :: OccursAt(s, sub, i)
  }

  // ---------------------------------------------------------------------------
  // split

  /** Joins parts with the separator c between consecutive parts ('c'.join(parts)). */
  function JoinWith(parts: seq<string>, c: char): string
    decreases |parts|
  {
    if parts == [] then []
    else if |parts| == 1 then parts[0]
    else parts[0] + [c] + JoinWith(parts[1..], c)
  }

  /** Python's s.split(c): never empty, and no part holds c. */
  function Split(s: string, c: char): (parts: seq<string>)
    ensures |parts| >= 1
    ensures forall i :: 0 <= i < |parts| ==> c !in parts[i]
    decreases |s|
  {
    match IndexOf(s, c)
    case None => [s]
    case Some(i) => [s[..i]] + Split(s[i + 1..], c)
  }

  /** Joining the parts of Split(s, c) with c gives s back. */
  lemma {:induction false} SplitJoin(s: string, c: char)
    ensures JoinWith(Split(s, c), c) == s
    decreases |s|
  {
    var found := IndexOf(s, c);
    if found.Some? {
      var i := found.value;
      var rest := Split(s[i + 1..], c);
      SplitJoin(s[i + 1..], c);
      assert Split(s, c) == [s[..i]] + rest;
      assert ([s[..i]] + rest)[1..] == rest;
      assert s == s[..i] + [c] + s[i + 1..];
    }
  }

  /** The last part of Split(s, c) is the text after the last c in s. */
  lemma {:induction false} SplitLastIsAfterLast(s: string, c: char)
    ensures var parts := Split(s, c); parts[|parts| - 1] == AfterLast(s, c)
    decreases |s|
  {
    var found := IndexOf(s, c);
    if found.Some? {
      var i := found.value;
      var t := s[i + 1..];
      var parts, rest := Split(s, c), Split(t, c);
      assert parts == [s[..i]] + rest;
      assert parts[|parts| - 1] == rest[|rest| - 1];
      SplitLastIsAfterLast(t, c);
      var r := AfterLast(t, c);
      assert r == s[|s| - |r|..];
      assert |r| < |s| ==> s[|s| - |r| - 1] == c by {
        if |r| < |t| {
          assert s[|s| - |r| - 1] == t[|t| - |r| - 1];
        }
      }
      AfterLastUnique(s, c, r);
    } else {
      AfterLastUnique(s, c, s);
    }
  }

  /** A suffix of s without c, preceded by c or making up all of s, is AfterLast(s, c). */
  lemma AfterLastUnique(s: string, c: char, r: string)
    requires c !in r && |r| <= |s| && r == s[|s| - |r|..]
    requires |r| < |s| ==> s[|s| - |r| - 1] == c
    ensures AfterLast(s, c) == r
  {
  }

  // ---------------------------------------------------------------------------
  // replace

  /** Python's s.replace(pat, rep): every occurrence found scanning left to right,
      without overlap, is replaced. */
  function Replace(s: string, pat: string, rep: string): string
    requires pat != []
    decreases |s|
  {
    if |s| < |pat| then s
    else if s[..|pat|] == pat then rep + Replace(s[|pat|..], pat, rep)
    else [s[0]] + Replace(s[1..], pat, rep)
  }

  /** Text holding no occurrence of pat is left unchanged by Replace. */
  lemma {:induction false} ReplaceAbsent(s: string, pat: string, rep: string)
    requires pat != []
    requires !Contains(s, pat)
    ensures Replace(s, pat, rep) == s
    decreases |s|
  {
    if |s| >= |pat| {
      assert !OccursAt(s, pat, 0);
      if !Contains(s[1..], pat) {
        ReplaceAbsent(s[1..], pat, rep);
      } else {
        var i: nat :| i <= |s[1..]| && OccursAt(s[1..], pat, i);
        assert s[i + 1..i + 1 + |pat|] == s[1..][i..i + |pat|];
        assert OccursAt(s, pat, i + 1);
      }
    }
  }

  /** When the first character of pat occurs nowhere else in pat, an occurrence
      appended at the end cannot merge with what precedes it: it is replaced on
      its own. */
  lemma {:induction false} ReplaceAppended(x: string, pat: string, rep: string)
    requires pat != [] && pat[0] !in pat[1..]
    ensures Replace(x + pat, pat, rep) == Replace(x, pat, rep) + rep
    decreases |x|
  {
    var s := x + pat;
    if x == [] {
      assert s[..|pat|] == pat && s[|pat|..] == [];
    } else if |x| < |pat| {
      assert s[..|pat|] != pat by {
        assert s[|x|] == pat[0];
        assert pat[|x|] == pat[1..][|x| - 1];
      }
      ReplaceShortAppended(x, pat, rep);
    } else if x[..|pat|] == pat {
      assert s[..|pat|] == x[..|pat|];
      assert s[|pat|..] == x[|pat|..] + pat;
      ReplaceAppended(x[|pat|..], pat, rep);
    } else {
      assert s[..|pat|] == x[..|pat|];
      assert s[1..] == x[1..] + pat;
      ReplaceAppended(x[1..], pat, rep);
    }
  }

  /** The case of ReplaceAppended where x is shorter than pat and x + pat does not start with pat. */
  lemma {:induction false} ReplaceShortAppended(x: string, pat: string, rep: string)
    requires pat != [] && pat[0] !in pat[1..]
    requires 0 < |x| < |pat| && (x + pat)[..|pat|] != pat
    ensures Replace(x + pat, pat, rep) == x + rep
    decreases |x|
  {
    var s := x + pat;
    assert Replace(s, pat, rep) == [x[0]] + Replace(s[1..], pat, rep);
    assert s[1..] == x[1..] + pat;
    if |x| == 1 {
      assert s[1..] == pat;
      assert Replace(pat, pat, rep) == rep + Replace([], pat, rep);
    } else {
      assert (x[1..] + pat)[..|pat|] != pat by {
        assert (x[1..] + pat)[|x| - 1] == pat[0];
        assert pat[|x| - 1] == pat[1..][|x| - 2];
      }
      ReplaceShortAppended(x[1..], pat, rep);
    }
  }

  // ---------------------------------------------------------------------------
  // upper case

  /** Python's str.upper() on ASCII letters; every other character is kept. */
  function UpperChar(c: char): char {
    if 'a' <= c <= 'z' then (c as int - 'a' as int + 'A' as int) as char else c
  }

  function Upper(s: string): (r: string)
    ensures |r| == |s|
    ensures forall k :: 0 <= k < |s| ==> r[k] == UpperChar(s[k])
  {
    seq(|s|, k requires 0 <= k < |s| => UpperChar(s[k]))
  }

  /** Upper leaves no lower-case ASCII letter, turns each lower-case letter into
      the upper-case letter 32 code points below it, keeps every other character,
      and is idempotent. */
  lemma UpperIsUpper(s: string)
    ensures |Upper(s)| == |s|
    ensures forall k :: 0 <= k < |s| ==> !('a' <= Upper(s)[k] <= 'z')
    ensures forall k :: 0 <= k < |s| && 'a' <= s[k] <= 'z' ==>
      'A' <= Upper(s)[k] <= 'Z' && Upper(s)[k] as int == s[k] as int - 32
    ensures forall k :: 0 <= k < |s| && !('a' <= s[k] <= 'z') ==> Upper(s)[k] == s[k]
    ensures Upper(Upper(s)) == Upper(s)
  {
  }

  // ---------------------------------------------------------------------------
  // decimal numbers

  function DigitChar(d: nat): char
    requires d < 10
  {
    ('0' as int + d) as char
  }

  /** str(n) for a non-negative int: decimal digits, no leading zero. */
  function DecimalString(n: nat): (r: string)
    ensures r != [] && AllDigits(r)
    ensures r[0] == '0' ==> n == 0
    decreases n
  {
    if n < 10 then [DigitChar(n)] else DecimalString(n / 10) + [DigitChar(n % 10)]
  }

  /** int(s) for a string of ASCII decimal digits (leading zeros allowed). */
  function DecimalValue(s: string): nat
    requires AllDigits(s)
    decreases |s|
  {
    if s == [] then 0
    else 10 * DecimalValue(s[..|s| - 1]) + (s[|s| - 1] as int - '0' as int)
  }

  /** Reading back a printed number gives the number. */
  lemma {:induction false} DecimalRoundTrip(n: nat)
    ensures DecimalValue(DecimalString(n)) == n
    decreases n
  {
    if n >= 10 {
      DecimalRoundTrip(n / 10);
      var s := DecimalString(n);
      assert s[..|s| - 1] == DecimalString(n / 10);
    }
  }

  /** A digit string whose first digit is not 0 has a positive value. */
  lemma {:induction false} DecimalValuePositive(s: string)
    requires AllDigits(s) && s != [] && s[0] != '0'
    ensures DecimalValue(s) > 0
    decreases |s|
  {
    if |s| > 1 {
      DecimalValuePositive(s[..|s| - 1]);
    }
  }

  /** Printing the value of a digit string without a leading zero gives the string back. */
  lemma {:induction false} DecimalPrintsBack(s: string)
    requires AllDigits(s) && s != [] && s[0] != '0'
    ensures DecimalString(DecimalValue(s)) == s
    decreases |s|
  {
    if |s| > 1 {
      var t := s[..|s| - 1];
      DecimalPrintsBack(t);
      DecimalValuePositive(t);
      var n := DecimalValue(s);
      assert n / 10 == DecimalValue(t) && n % 10 == s[|s| - 1] as int - '0' as int;
      assert s == t + [s[|s| - 1]];
    }
  }

  /** The value of a four-digit string is at most 9999. */
  lemma FourDigitBound(s: string)
    requires AllDigits(s) && |s| == 4
    ensures DecimalValue(s) <= 9999
  {
    assert DecimalValue(s[..1]) <= 9;
    assert s[..2][..1] == s[..1];
    assert DecimalValue(s[..2]) <= 99;
    assert s[..3][..2] == s[..2];
    assert DecimalValue(s[..3]) <= 999;
    assert s[..3] == s[..|s| - 1];
  }

  // ---------------------------------------------------------------------------
  // paths (POSIX os.path)

  /** os.path.basename(p): the text after the last '/'. */
  function Basename(p: string): (r: string)
    ensures '/' !in r
    ensures |r| <= |p| && r == p[|p| - |r|..]
  {
    AfterLast(p, '/')
  }

  /** os.path.basename(p) is the text after the last '/' of p, or all of p
      when it has none. */
  lemma BasenameIsLastSegment(p: string)
    ensures var r := Basename(p);
      && '/' !in r && |r| <= |p| && r == p[|p| - |r|..]
      && (|r| < |p| ==> p[|p| - |r| - 1] == '/')
    ensures '/' !in p ==> Basename(p) == p
  {
    var r := Basename(p);
    assert |r| < |p| ==> p[|p| - |r| - 1] in p;
  }

  /** os.path.splitext(p)[0]: p without its extension. The extension starts at
      the last '.' after the last '/', and only if some character other than '.'
      precedes that dot within the last component (so ".bashrc" has none). */
  function StemOf(p: string): (r: string)
    ensures |r| <= |p| && r == p[..|r|]
    ensures var ext := p[|r|..];
      ext == [] || (ext[0] == '.' && '.' !in ext[1..] && '/' !in ext[1..])
  {
    var sep := LastIndexOf(p, '/');
    var dot := LastIndexOf(p, '.');
    if dot > sep && exists k :: sep + 1 <= k < dot && p[k] != '.' then p[..dot] else p
  }

  /** A file name x + "." + ext, where x holds some character other than '.',
      neither part holds '/' and ext holds no '.', has x as its stem. */
  lemma StemOfWithExtension(x: string, ext: string, k: nat)
    requires k < |x| && x[k] != '.' && '/' !in x
    requires '.' !in ext && '/' !in ext
    ensures StemOf(x + ['.'] + ext) == x
  {
    var p := x + ['.'] + ext;
    assert '/' !in p by {
      forall j | 0 <= j < |p|
        ensures p[j] != '/'
      {
        if j < |x| {
          assert p[j] == x[j];
        } else if j > |x| {
          assert p[j] == ext[j - |x| - 1];
        }
      }
    }
    assert LastIndexOf(p, '.') == |x| by {
      forall j | |x| < j < |p|
        ensures p[j] != '.'
      {
        assert p[j] == ext[j - |x| - 1];
      }
      LastIndexOfIs(p, '.', |x|);
    }
    assert LastIndexOf(p, '/') == -1 by {
      LastIndexOfAbsent(p, '/');
    }
    assert p[k] == x[k];
    assert p[..|x|] == x;
  }

  /** The last index of c is the index holding c with no c after it. */
  lemma LastIndexOfIs(s: string, c: char, i: nat)
    requires i < |s| && s[i] == c
    requires forall k :: i < k < |s| ==> s[k] != c
    ensures LastIndexOf(s, c) == i
  {
  }

  lemma LastIndexOfAbsent(s: string, c: char)
    requires c !in s
    ensures LastIndexOf(s, c) == -1
  {
  }

  /** os.path.join(a, b) for two components. */
  function PathJoin(a: string, b: string): (r: string)
    ensures b != [] && b[0] == '/' ==> r == b
    ensures (b == [] || b[0] != '/') && a != [] && a[|a| - 1] == '/' ==> r == a + b
  {
    if b != [] && b[0] == '/' then b
    else if a == [] || a[|a| - 1] == '/' then a + b
    else a + "/" + b
  }

  /** The join ends with the second part; a relative second part follows the
      first part and a single separating '/'. */
  lemma PathJoinParts(a: string, b: string)
    ensures var r := PathJoin(a, b); |b| <= |r| && r[|r| - |b|..] == b
    ensures (b == [] || b[0] != '/') ==> var r := PathJoin(a, b);
      && |a| <= |r| && r[..|a|] == a
      && (a != [] ==> |a| + |b| <= |r| <= |a| + |b| + 1 && r[|r| - |b| - 1] == '/')
  {
  }

  /** The base name of a file joined onto a directory is the file's own name. */
  lemma BasenameOfJoin(dir: string, name: string)
    requires dir != [] && dir[|dir| - 1] == '/'
    requires '/' !in name
    ensures Basename(PathJoin(dir, name)) == name
  {
    var p := dir + name;
    if name != [] {
      assert name[0] in name;
    }
    assert p[|p| - |name|..] == name;
    if |name| < |p| {
      assert p[|p| - |name| - 1] == dir[|dir| - 1];
    }
    AfterLastUnique(p, '/', name);
  }

  /** Replace brings in no character that neither the text nor the replacement holds. */
  lemma {:induction false} ReplaceKeepsOut(s: string, pat: string, rep: string, c: char)
    requires pat != [] && c !in s && c !in rep
    ensures c !in Replace(s, pat, rep)
    decreases |s|
  {
    if |s| >= |pat| {
      if s[..|pat|] == pat {
        assert c !in s[|pat|..] by {
          assert forall k :: 0 <= k < |s| - |pat| ==> s[|pat|..][k] == s[k + |pat|];
        }
        ReplaceKeepsOut(s[|pat|..], pat, rep, c);
      } else {
        assert c !in s[1..] by {
          assert forall k :: 0 <= k < |s| - 1 ==> s[1..][k] == s[k + 1];
        }
        ReplaceKeepsOut(s[1..], pat, rep, c);
      }
    }
  }
}
