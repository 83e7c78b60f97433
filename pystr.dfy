/**
 * The parts of Python 3's `str` and `os.path` (POSIX flavour) that the
 * upload scripts and the Lambda handlers rely on, written out so that the
 * model follows CPython's rules rather than some approximation of them.
 */
module PyStr {

  /** `str.isspace()` for a single character: the code points CPython's
      `Py_UNICODE_ISSPACE` accepts (bidirectional classes WS, B, S and
      the space separators). This is the set `str.strip()` removes. */
  predicate IsSpace(c: char) {
    || c == ' '
    || ('\t' <= c <= '\r')
    || ('\U{1C}' <= c <= '\U{1F}')
    || c == '\U{85}'
    || c == '\U{A0}'
    || c == '\U{1680}'
    || ('\U{2000}' <= c <= '\U{200A}')
    || c == '\U{2028}'
    || c == '\U{2029}'
    || c == '\U{202F}'
    || c == '\U{205F}'
    || c == '\U{3000}'
  }

  /** Number of whitespace characters at the front of `s`. */
  function LeadingSpaces(s: string): (n: nat)
    ensures n <= |s|
    ensures forall k | 0 <= k < n :: IsSpace(s[k])
    ensures n < |s| ==> !IsSpace(s[n])
  {
    if s != [] && IsSpace(s[0]) then 1 + LeadingSpaces(s[1..]) else 0
  }

  /** Number of whitespace characters at the back of `s`. */
  function TrailingSpaces(s: string): (n: nat)
    ensures n <= |s|
    ensures forall k | |s| - n <= k < |s| :: IsSpace(s[k])
    ensures n < |s| ==> !IsSpace(s[|s| - 1 - n])
  {
    if s != [] && IsSpace(s[|s| - 1]) then 1 + TrailingSpaces(s[..|s| - 1]) else 0
  }

  /** `s.strip()`: the longest infix of `s` that neither starts nor ends with whitespace. */
  function Strip(s: string): (r: string)
    ensures r == [] || (!IsSpace(r[0]) && !IsSpace(r[|r| - 1]))
    ensures forall c | c in r :: c in s
  {
    var t := s[LeadingSpaces(s)..];
    t[..|t| - TrailingSpaces(t)]
  }

  /** What `strip` drops: the result is the infix of `s` that starts right
      after the leading whitespace, and everything after it is whitespace. */
  lemma StripInfix(s: string)
    ensures LeadingSpaces(s) + |Strip(s)| <= |s|
    ensures Strip(s) == s[LeadingSpaces(s)..LeadingSpaces(s) + |Strip(s)|]
    ensures forall k | LeadingSpaces(s) + |Strip(s)| <= k < |s| :: IsSpace(s[k])
  {
    var n := LeadingSpaces(s);
    var t := s[n..];
    var m := TrailingSpaces(t);
    assert forall k | 0 <= k < |t| :: t[k] == s[n + k];
    assert Strip(s) == t[..|t| - m] == s[n..n + |t| - m];
  }

  /** `s.startswith(p)`. */
  predicate StartsWith(s: string, p: string) {
    |p| <= |s| && s[..|p|] == p
  }

  /** `s.endswith(p)`. */
  predicate EndsWith(s: string, p: string) {
    |p| <= |s| && s[|s| - |p|..] == p
  }

  /** A string built as prefix + middle + suffix starts with the prefix,
      ends with the suffix, and holds the middle and suffix after the prefix. */
  lemma Affixes(a: string, m: string, z: string)
    ensures StartsWith(a + m + z, a) && EndsWith(a + m + z, z)
    ensures (a + m + z)[|a|..] == m + z
  {
    assert (a + m + z)[..|a|] == a;
    assert (a + m + z)[|a| + |m|..] == z;
  }

  /** A concatenation starts with its left part and ends with its right part. */
  lemma Concat(a: string, b: string)
    ensures StartsWith(a + b, a) && EndsWith(a + b, b)
    ensures forall k | 0 <= k < |a| :: (a + b)[k] == a[k]
  {
    assert (a + b)[..|a|] == a;
    assert (a + b)[|a|..] == b;
  }

  /** `s.replace(pat, sub)` for a non-empty pattern: every non-overlapping
      occurrence of `pat`, scanning from the left, is replaced. */
  function Replace(s: string, pat: string, sub: string): (r: string)
    requires pat != []
    decreases |s|
  {
    if |s| < |pat| then s
    else if s[..|pat|] == pat then sub + Replace(s[|pat|..], pat, sub)
    else [s[0]] + Replace(s[1..], pat, sub)
  }

  /** Replacing a single character by another single character maps every
      position on its own and keeps the length. */
  lemma {:induction false} ReplaceCharAt(s: string, a: char, b: char)
    ensures |Replace(s, [a], [b])| == |s|
    ensures forall k | 0 <= k < |s| :: Replace(s, [a], [b])[k] == if s[k] == a then b else s[k]
    decreases |s|
  {
    if |s| > 0 {
      ReplaceCharAt(s[1..], a, b);
    }
  }

  /** `c.lower()` for the ASCII letters. */
  function LowerChar(c: char): char {
    if 'A' <= c <= 'Z' then (c as int + 32) as char else c
  }

  /** `s.lower()`, restricted to ASCII upper-case letters (see README). */
  function Lower(s: string): (r: string)
    ensures |r| == |s|
    ensures forall k | 0 <= k < |s| :: r[k] == LowerChar(s[k])
  {
    seq(|s|, k requires 0 <= k < |s| => LowerChar(s[k]))
  }

  /** Index of the first `c` in `s`, or `|s|` when there is none. */
  function FirstIndex(s: string, c: char): (i: nat)
    ensures i <= |s|
    ensures i < |s| ==> s[i] == c
    ensures forall k | 0 <= k < i :: s[k] != c
  {
    if s == [] then 0 else if s[0] == c then 0 else 1 + FirstIndex(s[1..], c)
  }

  /** `c` occurs in `s` exactly when `FirstIndex` finds it, and never
      before that index. */
  lemma FirstIndexFinds(s: string, c: char)
    ensures FirstIndex(s, c) < |s| <==> c in s
    ensures c !in s[..FirstIndex(s, c)]
  {
    var i := FirstIndex(s, c);
    assert forall k | 0 <= k < i :: s[..i][k] == s[k];
  }

  /** `s.rfind(c)`: index of the last `c` in `s`, or -1. */
  function RFind(s: string, c: char): (i: int)
    ensures -1 <= i < |s|
    ensures i >= 0 ==> s[i] == c
    ensures forall k | i < k < |s| :: s[k] != c
  {
    if s == [] then -1 else if s[|s| - 1] == c then |s| - 1 else RFind(s[..|s| - 1], c)
  }

  /** A character found in the right part is found at its shifted place. */
  lemma RFindRightPart(x: string, y: string, c: char)
    requires c in y
    ensures RFind(x + y, c) == |x| + RFind(y, c)
  {
    var i := RFind(y, c);
    assert (x + y)[|x| + i] == c;
    assert forall k | |x| + i < k < |x + y| :: (x + y)[k] == y[k - |x|];
  }

  /** A character absent from the right part is looked for in the left part. */
  lemma RFindLeftPart(x: string, y: string, c: char)
    requires c !in y
    ensures RFind(x + y, c) == RFind(x, c)
  {
    assert forall k | |x| <= k < |x + y| :: (x + y)[k] == y[k - |x|];
    assert forall k | 0 <= k < |x| :: (x + y)[k] == x[k];
  }

  /** `s.split(sep)` for a one-character separator: always at least one
      part, and no part holds the separator. */
  function Split(s: string, sep: char): (parts: seq<string>)
    ensures |parts| >= 1
    ensures forall i | 0 <= i < |parts| :: sep !in parts[i]
    decreases |s|
  {
    var i := FirstIndex(s, sep);
    if i == |s| then [s] else [s[..i]] + Split(s[i + 1..], sep)
  }

  /** `sep.join(xs)`. */
  function Join(sep: string, xs: seq<string>): (r: string)
    decreases |xs|
  {
    if xs == [] then ""
    else if |xs| == 1 then xs[0]
    else xs[0] + sep + Join(sep, xs[1..])
  }

  /** Joining with one more item adds the separator and the item at the end. */
  lemma {:induction false} JoinSnoc(sep: string, xs: seq<string>, x: string)
    requires xs != []
    ensures Join(sep, xs + [x]) == Join(sep, xs) + sep + x
    decreases |xs|
  {
    if |xs| == 1 {
      assert xs + [x] == [xs[0], x];
    } else {
      assert (xs + [x])[1..] == xs[1..] + [x];
      JoinSnoc(sep, xs[1..], x);
    }
  }

  /** Splitting a line that carries no separator, followed by the separator
      and more text, peels off that line. */
  lemma SplitCons(x: string, sep: char, rest: string)
    requires sep !in x
    ensures Split(x + [sep] + rest, sep) == [x] + Split(rest, sep)
  {
    var s := x + [sep] + rest;
    var i := FirstIndex(s, sep);
    assert s[|x|] == sep;
    assert forall k | 0 <= k < |x| :: s[k] == x[k];
    assert s[..i] == x;
    assert s[i + 1..] == rest;
  }

  /** Every character of the string is a '.'. */
  predicate AllDots(s: string) {
    forall k | 0 <= k < |s| :: s[k] == '.'
  }

  /** `os.path.basename(p)` on POSIX, which is also `p.split('/')[-1]`:
      the text after the last '/'. */
  function Basename(p: string): (b: string)
    ensures '/' !in b
    ensures EndsWith(p, b)
    ensures |b| < |p| ==> p[|p| - |b| - 1] == '/'
  {
    p[RFind(p, '/') + 1..]
  }

  /** `p.split('/')[-1]` is the same text as `os.path.basename(p)`. */
  lemma LastSegmentIsBasename(p: string)
    ensures Split(p, '/')[|Split(p, '/')| - 1] == Basename(p)
  {
    LastSegment(p);
  }

  lemma {:induction false} LastSegment(p: string)
    ensures Split(p, '/')[|Split(p, '/')| - 1] == p[RFind(p, '/') + 1..]
    decreases |p|
  {
    var i := FirstIndex(p, '/');
    if i == |p| {
      LastSegmentNoSlash(p);
    } else {
      LastSegment(p[i + 1..]);
      LastSegmentStep(p, i);
    }
  }

  lemma LastSegmentNoSlash(p: string)
    requires FirstIndex(p, '/') == |p|
    ensures Split(p, '/')[|Split(p, '/')| - 1] == p[RFind(p, '/') + 1..]
  {
    assert Split(p, '/') == [p];
    assert RFind(p, '/') == -1;
  }

  lemma LastSegmentStep(p: string, i: nat)
    requires i == FirstIndex(p, '/') < |p|
    requires Split(p[i + 1..], '/')[|Split(p[i + 1..], '/')| - 1] == p[i + 1..][RFind(p[i + 1..], '/') + 1..]
    ensures Split(p, '/')[|Split(p, '/')| - 1] == p[RFind(p, '/') + 1..]
  {
    var parts := Split(p[i + 1..], '/');
    var whole := Split(p, '/');
    assert whole == [p[..i]] + parts;
    assert |whole| - 1 == |parts|;
    assert whole[|parts|] == parts[|parts| - 1];
    AfterLastSlashStep(p, i);
  }

  lemma AfterLastSlashStep(p: string, i: nat)
    requires i < |p| && p[i] == '/'
    ensures p[RFind(p, '/') + 1..] == p[i + 1..][RFind(p[i + 1..], '/') + 1..]
  {
    var front, rest := p[..i + 1], p[i + 1..];
    assert p == front + rest;
    RFindAfterSlash(front, rest);
    DropDrop(p, i + 1, RFind(rest, '/') + 1);
  }

  /** After a text ending in '/', the last '/' is the one in the rest, or
      that final '/' when the rest has none. */
  lemma RFindAfterSlash(front: string, rest: string)
    requires |front| > 0 && front[|front| - 1] == '/'
    ensures RFind(front + rest, '/') == |front| + RFind(rest, '/')
  {
    if '/' in rest {
      RFindRightPart(front, rest, '/');
    } else {
      RFindLeftPart(front, rest, '/');
    }
  }

  /** Dropping `a` characters and then `b` more drops `a + b`. */
  lemma DropDrop(p: string, a: nat, b: nat)
    requires a + b <= |p|
    ensures p[a..][b..] == p[a + b..]
  {
    assert forall k | 0 <= k < |p| - a - b :: p[a..][b..][k] == p[a + b + k];
  }

  /** A key that contains no '/' is its own basename. */
  lemma BasenameOfPlain(p: string)
    requires '/' !in p
    ensures Basename(p) == p
  {
    assert RFind(p, '/') == -1;
  }

  /** The shape of what `os.path.splitext` returns as an extension: empty,
      or a '.' followed by characters that are neither '.' nor '/'. */
  predicate IsExtension(e: string) {
    e == [] || (e[0] == '.' && forall k | 1 <= k < |e| :: e[k] != '.' && e[k] != '/')
  }

  /** The last '.' of a string, when no '/' comes after it, starts an extension. */
  lemma TailIsExtension(p: string)
    requires RFind(p, '.') > RFind(p, '/')
    ensures IsExtension(p[RFind(p, '.')..])
  {
    var d := RFind(p, '.');
    var e := p[d..];
    assert forall k | 1 <= k < |e| :: e[k] == p[d + k];
  }
  /** `os.path.splitext(p)` on POSIX (`genericpath._splitext` with '/' and
      '.'): the extension starts at the last '.' of the last path segment,
      unless everything in that segment before it is a '.' (so ".png" and
      "..png" have no extension). */
  function SplitExt(p: string): (r: (string, string))
    ensures r.0 + r.1 == p
    ensures IsExtension(r.1)
  {
    var dotIndex := ExtensionStart(p);
    if dotIndex >= 0 then (p[..dotIndex], p[dotIndex..]) else (p, "")
  }

  /** Where `os.path.splitext` cuts: the last '.' when it lies in the last
      path segment and something other than dots comes before it in that
      segment, -1 otherwise. */
  function ExtensionStart(p: string): (d: int)
    ensures -1 <= d < |p|
    ensures d >= 0 ==> IsExtension(p[d..])
    ensures d >= 0 ==> d == RFind(p, '.') && RFind(p, '/') < d && !AllDots(p[RFind(p, '/') + 1..d])
    ensures d < 0 ==> RFind(p, '.') <= RFind(p, '/') || AllDots(p[RFind(p, '/') + 1..RFind(p, '.')])
  {
    var sepIndex := RFind(p, '/');
    var dotIndex := RFind(p, '.');
    if dotIndex > sepIndex && !AllDots(p[sepIndex + 1..dotIndex]) then
      TailIsExtension(p);
      dotIndex
    else
      -1
  }

  /** The stem `os.path.splitext` returns keeps a '/'-free name '/'-free. */
  lemma StemHasNoSlash(p: string)
    requires '/' !in p
    ensures '/' !in SplitExt(p).0
  {
    var r := SplitExt(p);
    assert forall k | 0 <= k < |r.0| :: r.0[k] == p[k];
  }

  /** `os.path.splitext` of a plain file name "stem.ext" whose stem is not
      only dots (".x" is a stem, "." and ".." are not) and whose extension
      has no '.': the stem and the dotted extension. */
  lemma SplitExtOfName(stem: string, ext: string)
    requires !AllDots(stem) && '/' !in stem
    requires '.' !in ext && '/' !in ext
    ensures SplitExt(stem + "." + ext) == (stem, "." + ext)
  {
    var dotted := "." + ext;
    var p := stem + dotted;
    assert stem + "." + ext == p;
    RFindLeftPart(".", ext, '.');
    RFindRightPart(stem, dotted, '.');
    RFindLeftPart(stem, dotted, '/');
    NoSlashRFind(stem);
    assert p[..|stem|] == stem && p[|stem|..] == dotted;
    assert p[0..|stem|] == stem;
  }

  /** `os.path.splitext` looks at the last path segment only: behind a
      folder part ending in '/', a '/'-free name is cut where it would be
      cut on its own, and the folder part stays with the stem. */
  lemma SplitExtInFolder(folder: string, name: string)
    requires folder != [] && folder[|folder| - 1] == '/' && '/' !in name
    ensures SplitExt(folder + name) == (folder + SplitExt(name).0, SplitExt(name).1)
  {
    var p := folder + name;
    var e := ExtensionStart(name);
    ExtensionStartInFolder(folder, name);
    if e >= 0 {
      assert p[..|folder| + e] == folder + name[..e];
      assert p[|folder| + e..] == name[e..];
    }
  }

  /** Where the cut falls behind a folder part: shifted by the folder's length. */
  lemma ExtensionStartInFolder(folder: string, name: string)
    requires folder != [] && folder[|folder| - 1] == '/' && '/' !in name
    ensures ExtensionStart(folder + name) == if ExtensionStart(name) >= 0 then |folder| + ExtensionStart(name) else -1
  {
    var p := folder + name;
    assert RFind(p, '/') == |folder| - 1 by {
      RFindLeftPart(folder, name, '/');
      assert folder[|folder| - 1] == '/';
    }
    NoSlashRFind(name);
    if '.' in name {
      var dn := RFind(name, '.');
      assert RFind(p, '.') == |folder| + dn by {
        RFindRightPart(folder, name, '.');
      }
      assert p[|folder|..|folder| + dn] == name[0..dn] by {
        assert forall k | 0 <= k < dn :: p[|folder| + k] == name[k];
      }
    } else {
      assert RFind(p, '.') <= |folder| - 1 by {
        RFindLeftPart(folder, name, '.');
      }
      assert RFind(name, '.') == -1;
    }
  }

  /** A string without '/' has no last '/'. */
  lemma NoSlashRFind(s: string)
    requires '/' !in s
    ensures RFind(s, '/') == -1
  {
  }

  /** On a name without '/', `os.path.splitext` finds no extension exactly
      when the name has no '.' or only dots before its last '.'. */
  lemma SplitExtOfPlain(p: string)
    requires '/' !in p
    ensures SplitExt(p).1 == [] <==> RFind(p, '.') < 0 || AllDots(p[0..RFind(p, '.')])
  {
    NoSlashRFind(p);
    var d := RFind(p, '.');
    if d >= 0 {
      assert p[d..] != [];
    }
  }

  /** Two strings of a length that hold `c` at the same places have their
      last `c` at the same place. */
  lemma {:induction false} RFindSamePlaces(a: string, b: string, c: char)
    requires |a| == |b|
    requires forall k | 0 <= k < |a| :: a[k] == c <==> b[k] == c
    ensures RFind(a, c) == RFind(b, c)
    decreases |a|
  {
    if a != [] {
      var n := |a| - 1;
      assert forall k | 0 <= k < n :: a[..n][k] == a[k] && b[..n][k] == b[k];
      RFindSamePlaces(a[..n], b[..n], c);
    }
  }

  /** A non-empty extension has its only '.' in front. */
  lemma ExtensionDot(e: string)
    requires IsExtension(e) && e != []
    ensures RFind(e, '.') == 0
  {
    assert e == "." + e[1..];
    RFindLeftPart(".", e[1..], '.');
  }

  /** Two strings with '.' at the same places among their first `d`
      characters agree on whether those are all dots. */
  lemma AllDotsSamePlaces(a: string, b: string, d: nat)
    requires d <= |a| && d <= |b|
    requires forall k | 0 <= k < d :: a[k] == '.' <==> b[k] == '.'
    ensures AllDots(a[0..d]) <==> AllDots(b[0..d])
  {
    assert forall k | 0 <= k < d :: a[0..d][k] == a[k] && b[0..d][k] == b[k];
  }
}
