// The Python string and path operations the core relies on: str.replace
// of spaces, str.lower, str.strip, str.split(sep)[0], the `in` test on
// strings, and posixpath.join / posixpath.splitext.

module PyText {

  // --- s.replace(" ", "") ---

  /** `s` with every space removed. */
  function RemoveSpaces(s: string): (r: string)
    ensures ' ' !in r
    ensures |r| <= |s|
  {
    if s == [] then []
    else (if s[0] == ' ' then [] else [s[0]]) + RemoveSpaces(s[1..])
  }

  /** A string without spaces is left as it is, so removing spaces twice
      changes nothing. */
  lemma {:induction false} RemoveSpacesKeepsOthers(s: string)
    requires ' ' !in s
    ensures RemoveSpaces(s) == s
  {
    if s != [] {
      RemoveSpacesKeepsOthers(s[1..]);
    }
  }

  /** Spaces are removed piece by piece: the other characters keep their
      order. */
  lemma {:induction false} RemoveSpacesAppend(a: string, b: string)
    ensures RemoveSpaces(a + b) == RemoveSpaces(a) + RemoveSpaces(b)
  {
    if a == [] {
      assert a + b == b;
    } else {
      assert (a + b)[0] == a[0] && (a + b)[1..] == a[1..] + b;
      RemoveSpacesAppend(a[1..], b);
    }
  }

  lemma {:induction false} RemoveSpacesCount(s: string, c: char)
    requires c != ' '
    ensures multiset(RemoveSpaces(s))[c] == multiset(s)[c]
  {
    if s != [] {
      RemoveSpacesCount(s[1..], c);
      assert s == [s[0]] + s[1..];
    }
  }

  // --- str.lower ---

  function LowerChar(c: char): (d: char)
    ensures 'A' <= c <= 'Z' ==> 'a' <= d <= 'z'
    ensures !('A' <= c <= 'Z') ==> d == c
  {
    if 'A' <= c <= 'Z' then (c as int - 'A' as int + 'a' as int) as char else c
  }

  /** Lower-casing, for the ASCII letters. */
  function Lower(s: string): (r: string)
    ensures |r| == |s|
    ensures forall i :: 0 <= i < |s| ==> r[i] == LowerChar(s[i])
  {
    seq(|s|, i requires 0 <= i < |s| => LowerChar(s[i]))
  }

  // --- str.strip ---

  /** The characters for which Python's str.isspace holds. */
  predicate IsSpace(c: char)
  {
    var n := c as int;
    || 0x09 <= n <= 0x0D || 0x1C <= n <= 0x20 || n == 0x85 || n == 0xA0
    || n == 0x1680 || 0x2000 <= n <= 0x200A || n == 0x2028 || n == 0x2029
    || n == 0x202F || n == 0x205F || n == 0x3000
  }

  function TrimStart(s: string): string
  {
    if s != [] && IsSpace(s[0]) then TrimStart(s[1..]) else s
  }

  function TrimEnd(s: string): string
  {
    if s != [] && IsSpace(s[|s| - 1]) then TrimEnd(s[..|s| - 1]) else s
  }

  /** lstrip() removes exactly the leading whitespace. */
  lemma {:induction false} TrimStartSpec(s: string)
    ensures var r := TrimStart(s);
            && |r| <= |s| && r == s[|s| - |r|..]
            && (r == [] || !IsSpace(r[0]))
            && forall i :: 0 <= i < |s| - |r| ==> IsSpace(s[i])
  {
    if s != [] && IsSpace(s[0]) {
      TrimStartSpec(s[1..]);
      var r := TrimStart(s[1..]);
      assert TrimStart(s) == r;
      assert s[1..][|s| - 1 - |r|..] == s[|s| - |r|..];
      forall i | 0 <= i < |s| - |r|
        ensures IsSpace(s[i])
      {
        if i > 0 {
          assert s[i] == s[1..][i - 1];
        }
      }
    }
  }

  /** rstrip() removes exactly the trailing whitespace. */
  lemma {:induction false} TrimEndSpec(s: string)
    ensures var r := TrimEnd(s);
            && |r| <= |s| && r == s[..|r|]
            && (r == [] || !IsSpace(r[|r| - 1]))
            && forall i :: |r| <= i < |s| ==> IsSpace(s[i])
  {
    if s != [] && IsSpace(s[|s| - 1]) {
      TrimEndSpec(s[..|s| - 1]);
    }
  }

  /** `sub` occurs in `s` at index i. */
  predicate OccursAt(s: string, i: nat, sub: string)
  {
    i + |sub| <= |s| && s[i..i + |sub|] == sub
  }

  /** `r` is `s` with whitespace (only) cut off before index i and after
      the infix. */
  predicate TrimmedAt(s: string, i: nat, r: string)
  {
    && OccursAt(s, i, r)
    && (forall k :: 0 <= k < i ==> IsSpace(s[k]))
    && (forall k :: i + |r| <= k < |s| ==> IsSpace(s[k]))
  }

  /** `s.strip()`: leading and then trailing whitespace removed. */
  function Strip(s: string): string
  {
    TrimEnd(TrimStart(s))
  }

  /** The stripped string neither starts nor ends with whitespace, is an
      infix of `s`, and all that was cut off on either side is whitespace. */
  lemma StripTrimmed(s: string)
    ensures var r := Strip(s); r == [] || (!IsSpace(r[0]) && !IsSpace(r[|r| - 1]))
    ensures exists i :: TrimmedAt(s, i, Strip(s))
  {
    var t := TrimStart(s);
    var r := TrimEnd(t);
    TrimStartSpec(s);
    TrimEndSpec(t);
    var i := |s| - |t|;
    assert s[i..i + |r|] == r by {
      assert t == s[i..] && r == t[..|r|];
    }
    forall k | i + |r| <= k < |s|
      ensures IsSpace(s[k])
    {
      assert s[k] == t[k - i];
    }
    assert r == Strip(s);
    assert OccursAt(s, i, r);
    assert forall k :: 0 <= k < i ==> IsSpace(s[k]);
    assert TrimmedAt(s, i, r);
  }

  // --- s.split(sep)[0] ---

  /** The part of `s` before its first `sep` (all of `s` if none). */
  function SplitHead(s: string, sep: char): string
  {
    if s == [] || s[0] == sep then [] else [s[0]] + SplitHead(s[1..], sep)
  }

  /** The head is the prefix of `s` up to, not including, its first `sep`. */
  lemma {:induction false} SplitHeadSpec(s: string, sep: char)
    ensures var r := SplitHead(s, sep);
            && sep !in r
            && |r| <= |s| && r == s[..|r|]
            && (|r| < |s| ==> s[|r|] == sep)
  {
    if !(s == [] || s[0] == sep) {
      SplitHeadSpec(s[1..], sep);
    }
  }

  /** Number of occurrences of `c` in `s` (one less than the number of
      parts `s.split(c)` gives). */
  function Count(s: string, c: char): nat
  {
    multiset(s)[c]
  }

  // --- `sub in s` ---

  /** Python's substring test. */
  function Contains(s: string, sub: string): bool
  {
    if |sub| > |s| then false
    else if s[..|sub|] == sub then true
    else Contains(s[1..], sub)
  }

  /** `sub in s` holds exactly when `sub` occurs at some index of `s`. */
  lemma {:induction false} ContainsIff(s: string, sub: string)
    ensures Contains(s, sub) <==> exists i :: OccursAt(s, i, sub)
  {
    if |sub| > |s| {
    } else if s[..|sub|] == sub {
      assert OccursAt(s, 0, sub);
    } else {
      ContainsIff(s[1..], sub);
      if Contains(s[1..], sub) {
        var i: nat :| OccursAt(s[1..], i, sub);
        assert s[1..][i..i + |sub|] == s[i + 1..i + 1 + |sub|];
        assert OccursAt(s, i + 1, sub);
      }
      if exists i :: OccursAt(s, i, sub) {
        var i: nat :| OccursAt(s, i, sub);
        assert i != 0;
        assert s[1..][i - 1..i - 1 + |sub|] == s[i..i + |sub|];
        assert OccursAt(s[1..], i - 1, sub);
      }
    }
  }

  // --- posixpath.join(a, b) ---

  /** `os.path.join(a, b)` on POSIX: an absolute `b` replaces `a`; otherwise
      `b` is appended, with a '/' unless `a` is empty or already ends in one. */
  function Join(a: string, b: string): (r: string)
    ensures |b| > 0 && b[0] == '/' ==> r == b
    ensures !(|b| > 0 && b[0] == '/') ==> |a| + |b| <= |r| && r[..|a|] == a && r[|r| - |b|..] == b
  {
    if |b| > 0 && b[0] == '/' then b
    else if a == [] || a[|a| - 1] == '/' then a + b
    else a + "/" + b
  }

  /** A plain path component: non-empty, with no '/' at either end. */
  predicate Plain(s: string)
  {
    |s| > 0 && s[0] != '/' && s[|s| - 1] != '/'
  }

  /** Joining a plain component to a path that does not end in '/' puts
      exactly one '/' between them, and the result does not end in '/'. */
  lemma JoinPlain(a: string, b: string)
    requires |a| > 0 && a[|a| - 1] != '/' && Plain(b)
    ensures Join(a, b) == a + "/" + b
    ensures Join(a, b)[0] == a[0] && Join(a, b)[|Join(a, b)| - 1] != '/'
  {
  }

  // --- posixpath.splitext(p)[1] ---

  /** Index of the last `c` in `s`, or -1 (str.rfind). */
  function RFind(s: string, c: char): int
  {
    if s == [] then -1
    else if s[|s| - 1] == c then |s| - 1
    else RFind(s[..|s| - 1], c)
  }

  /** rfind gives the last index holding `c`, or -1 when there is none. */
  lemma {:induction false} RFindSpec(s: string, c: char)
    ensures var i := RFind(s, c);
            && -1 <= i < |s|
            && (i >= 0 ==> s[i] == c)
            && forall k :: i < k < |s| ==> s[k] != c
  {
    if s != [] && s[|s| - 1] != c {
      RFindSpec(s[..|s| - 1], c);
    }
  }

  /** The extension `os.path.splitext(p)[1]`: from the last '.' of the last
      path component on, provided that component has something other than
      dots before it; otherwise empty. */
  function Extension(p: string): (e: string)
    ensures |e| <= |p| && e == p[|p| - |e|..]
  {
    var sepIndex := RFind(p, '/');
    var dotIndex := RFind(p, '.');
    if -1 <= sepIndex < dotIndex < |p| && exists k :: sepIndex + 1 <= k < dotIndex && p[k] != '.' then
      p[dotIndex..]
    else []
  }

  /** A dot at index d can start the extension: it is the last dot of
      the last path component, and that component has something other
      than a dot before it. */
  predicate ExtensionAt(p: string, d: int)
  {
    && 0 <= d < |p| && p[d] == '.'
    && (forall k :: d < k < |p| ==> p[k] != '.' && p[k] != '/')
    && exists k :: 0 <= k < d && p[k] != '.' && forall m :: k <= m < d ==> p[m] != '/'
  }

  /** The extension is the suffix from the dot ExtensionAt allows, and is
      empty exactly when there is no such dot. */
  lemma ExtensionSpec(p: string)
    ensures var e := Extension(p);
            e == [] || (e[0] == '.' && '/' !in e && '.' !in e[1..] && |e| <= |p| && e == p[|p| - |e|..])
    ensures Extension(p) != [] <==> exists d :: ExtensionAt(p, d)
    ensures forall d :: ExtensionAt(p, d) ==> Extension(p) == p[d..]
  {
    RFindSpec(p, '/');
    RFindSpec(p, '.');
    var sepIndex, dotIndex := RFind(p, '/'), RFind(p, '.');
    var e := Extension(p);
    if e != [] {
      assert e == p[dotIndex..];
      forall i | 1 <= i < |e|
        ensures e[i] != '.'
      {
        assert e[i] == p[dotIndex + i];
      }
      var k :| sepIndex + 1 <= k < dotIndex && p[k] != '.';
      assert ExtensionAt(p, dotIndex);
    }
    forall d | ExtensionAt(p, d)
      ensures e == p[d..]
    {
      assert dotIndex == d;
      var k :| 0 <= k < d && p[k] != '.' && forall m :: k <= m < d ==> p[m] != '/';
      assert sepIndex < k;
    }
  }
}
