/** The Python string operations that the commander resolver and the
    traceback formatter rely on, each with the behaviour CPython gives it
    (posix path rules, byte-string whitespace). */
module PyStr {

  /** `s.rfind(c)`: the index of the last `c` in `s`, or -1. */
  function RFind(s: string, c: char): (k: int)
    ensures -1 <= k < |s|
    ensures k >= 0 ==> s[k] == c
  {
    if s == [] then -1
    else if s[|s| - 1] == c then |s| - 1
    else RFind(s[..|s| - 1], c)
  }

  /** No `c` comes after the index `rfind` returns, so -1 means there is
      no `c` at all. */
  lemma {:induction false} RFindIsLast(s: string, c: char)
    ensures forall j :: RFind(s, c) < j < |s| ==> s[j] != c
  {
    if s != [] && s[|s| - 1] != c {
      var t := s[..|s| - 1];
      RFindIsLast(t, c);
      assert forall j :: RFind(t, c) < j < |t| ==> s[j] == t[j];
    }
  }

  /** The three parts `s.rpartition(sep)` returns. */
  datatype Partition = Partition(head: string, sep: string, tail: string)

  /** `s.rpartition(c)`: split around the last `c`; without one, the whole
      string is the tail and the other two parts are empty. */
  function RPartition(s: string, c: char): (p: Partition)
    ensures p.head + p.sep + p.tail == s
    ensures c !in p.tail
    ensures c in s ==> p.sep == [c]
    ensures c !in s ==> p.head == [] && p.sep == [] && p.tail == s
  {
    var k := RFind(s, c);
    RFindIsLast(s, c);
    if k < 0 then Partition([], [], s)
    else
      assert s[..k] + [c] + s[k + 1..] == s;
      Partition(s[..k], [c], s[k + 1..])
  }

  /** `posixpath.basename(p)`: the text after the last '/'. */
  function BaseName(p: string): string
  {
    if p == [] || p[|p| - 1] == '/' then []
    else BaseName(p[..|p| - 1]) + [p[|p| - 1]]
  }

  /** The base name is the suffix of the path after its last '/', and it
      holds no '/' itself. */
  lemma {:induction false} BaseNameShape(p: string)
    ensures '/' !in BaseName(p)
    ensures |BaseName(p)| <= |p| && p[|p| - |BaseName(p)|..] == BaseName(p)
    ensures |BaseName(p)| < |p| ==> p[|p| - |BaseName(p)| - 1] == '/'
  {
    if p != [] && p[|p| - 1] != '/' {
      BaseNameShape(p[..|p| - 1]);
      SuffixSnoc(p, |BaseName(p[..|p| - 1])|);
    }
  }

  /** A suffix of all but the last character, extended by that character,
      is a suffix. */
  lemma SuffixSnoc(p: string, k: nat)
    requires k < |p|
    ensures p[|p| - k - 1..] == p[..|p| - 1][|p| - 1 - k..] + [p[|p| - 1]]
  {
  }

  /** Some character of `p[lo..hi]` is not a dot. */
  predicate HasNonDot(p: string, lo: int, hi: int)
    requires 0 <= lo <= hi <= |p|
  {
    exists k :: lo <= k < hi && p[k] != '.'
  }

  /** The two parts `os.path.splitext` returns. */
  datatype Split = Split(root: string, ext: string)

  /** `posixpath.splitext(p)`: the extension is the text from the last dot
      of the last path component, provided that component has a non-dot
      character before that dot (so ".bashrc" has no extension). */
  function SplitExt(p: string): Split
  {
    var sepIndex := RFind(p, '/');
    var dotIndex := RFind(p, '.');
    if dotIndex > sepIndex && HasNonDot(p, sepIndex + 1, dotIndex) then
      Split(p[..dotIndex], p[dotIndex..])
    else
      Split(p, [])
  }

  /** The two parts make up the path. A non-empty extension is one '.'
      followed by neither '.' nor '/', and the root keeps a non-dot
      character of the last component before it. */
  lemma SplitExtShape(p: string)
    ensures SplitExt(p).root + SplitExt(p).ext == p
    ensures var e := SplitExt(p).ext;
            e != [] ==> e[0] == '.' && '.' !in e[1..] && '/' !in e
    ensures var r := SplitExt(p).root;
            SplitExt(p).ext != [] ==> exists k :: 0 <= k < |r| && r[k] != '.' && '/' !in r[k..]
    ensures SplitExt(p).ext != [] <==> exists k, d :: RFind(p, '/') < k < d < |p| && p[k] != '.' && p[d] == '.'
  {
    var sepIndex := RFind(p, '/');
    var dotIndex := RFind(p, '.');
    RFindIsLast(p, '.');
    if exists k, d :: sepIndex < k < d < |p| && p[k] != '.' && p[d] == '.' {
      var k, d :| sepIndex < k < d < |p| && p[k] != '.' && p[d] == '.';
      assert k < dotIndex;
      assert HasNonDot(p, sepIndex + 1, dotIndex);
    }
    if dotIndex > sepIndex && HasNonDot(p, sepIndex + 1, dotIndex) {
      RFindIsLast(p, '/');
      var k :| sepIndex + 1 <= k < dotIndex && p[k] != '.';
      ExtensionShape(p, sepIndex, dotIndex, k);
    } else {
      assert p + [] == p;
    }
  }

  /** Cutting `p` at a dot `d` after a non-dot `k` of its last component,
      with no dot after `d`, gives an extension and a root of that shape. */
  lemma ExtensionShape(p: string, sep: int, d: nat, k: nat)
    requires -1 <= sep < k < d < |p| && p[k] != '.' && p[d] == '.'
    requires forall j :: sep < j < |p| ==> p[j] != '/'
    requires forall j :: d < j < |p| ==> p[j] != '.'
    ensures p[..d] + p[d..] == p
    ensures p[d..][0] == '.' && '.' !in p[d..][1..] && '/' !in p[d..]
    ensures k < |p[..d]| && p[..d][k] != '.' && '/' !in p[..d][k..]
  {
    assert p[d..][1..] == p[d + 1..];
  }

  /** The last `c` of `s + [c] + t`, where `t` holds no `c`, is the one
      between them. */
  lemma RFindBeforeTail(s: string, c: char, t: string)
    requires c !in t
    ensures RFind(s + [c] + t, c) == |s|
  {
    var p := s + [c] + t;
    RFindIsLast(p, c);
    assert p[|s|] == c;
  }

  /** A string without `c` has no last `c`. */
  lemma RFindAbsent(s: string, c: char)
    requires c !in s
    ensures RFind(s, c) == -1
  {
  }

  /** The base name of a path ending in `b`, a name without '/', right after
      a '/' or at the start, is `b`. */
  lemma {:induction false} BaseNameAfterSlash(a: string, b: string)
    requires a == [] || a[|a| - 1] == '/'
    requires '/' !in b
    ensures BaseName(a + b) == b
  {
    if b != [] {
      var b' := b[..|b| - 1];
      assert (a + b)[..|a + b| - 1] == a + b';
      assert (a + b)[|a + b| - 1] == b[|b| - 1];
      BaseNameAfterSlash(a, b');
      assert b' + [b[|b| - 1]] == b;
    } else {
      assert a + b == a;
    }
  }

  /** A file name with a dot and a dot-free extension after a stem that has
      some non-dot character splits at that dot: "alpha.py" gives "alpha"
      and ".py", "a.b.c" gives "a.b" and ".c". */
  lemma SplitExtOfStem(stem: string, ext: string)
    requires '/' !in stem && '/' !in ext && '.' !in ext
    requires exists k :: 0 <= k < |stem| && stem[k] != '.'
    ensures SplitExt(stem + "." + ext) == Split(stem, "." + ext)
  {
    var p := stem + "." + ext;
    assert '/' !in p;
    RFindAbsent(p, '/');
    RFindBeforeTail(stem, '.', ext);
    var k :| 0 <= k < |stem| && stem[k] != '.';
    assert p[k] == stem[k];
    assert HasNonDot(p, 0, |stem|);
    assert p[..|stem|] == stem && p[|stem|..] == "." + ext;
  }

  /** Python's `sub in s` for strings: `sub` occurs in `s` at some index. */
  predicate Contains(s: string, sub: string)
  {
    exists i :: 0 <= i <= |s| && sub <= s[i..]
  }

  /** A string occurs in any concatenation it is a middle part of. */
  lemma ContainsMiddle(a: string, b: string, c: string)
    ensures Contains(a + b + c, b)
  {
    assert b <= (a + b + c)[|a|..];
  }

  /** A substring of `a` is a substring of `a + b`. */
  lemma ContainsExtend(a: string, b: string, sub: string)
    requires Contains(a, sub)
    ensures Contains(a + b, sub)
  {
    var i :| 0 <= i <= |a| && sub <= a[i..];
    assert (a + b)[i..] == a[i..] + b;
  }

  /** A substring of `b` is a substring of `a + b`. */
  lemma ContainsPrepend(a: string, b: string, sub: string)
    requires Contains(b, sub)
    ensures Contains(a + b, sub)
  {
    var i :| 0 <= i <= |b| && sub <= b[i..];
    assert (a + b)[|a| + i..] == b[i..];
  }

  /** The empty string is a substring of every string. */
  lemma ContainsEmpty(s: string)
    ensures Contains(s, [])
  {
    assert [] <= s[0..];
  }

  /** The whitespace `str.strip()` removes from a byte string. */
  predicate IsSpace(c: char)
  {
    c == ' ' || c == '\t' || c == '\n' || c == '\r' || c == '\U{000B}' || c == '\U{000C}'
  }

  /** Every character of `t` is whitespace. */
  predicate AllSpace(t: string)
  {
    t == [] || (IsSpace(t[0]) && AllSpace(t[1..]))
  }

  lemma {:induction false} AllSpaceConcat(a: string, b: string)
    ensures AllSpace(a + b) <==> AllSpace(a) && AllSpace(b)
  {
    if a != [] {
      assert (a + b)[0] == a[0];
      assert (a + b)[1..] == a[1..] + b;
      AllSpaceConcat(a[1..], b);
    } else {
      assert a + b == b;
    }
  }

  /** A string of whitespace strips to nothing from the left. */
  lemma {:induction false} LStripAllSpace(s: string)
    requires AllSpace(s)
    ensures LStrip(s) == []
  {
    if s != [] {
      LStripAllSpace(s[1..]);
    }
  }

  /** `s.lstrip()`. */
  function LStrip(s: string): (r: string)
    ensures |r| <= |s| && r == s[|s| - |r|..]
    ensures r == [] || !IsSpace(r[0])
  {
    if s != [] && IsSpace(s[0]) then LStrip(s[1..]) else s
  }

  /** `s.rstrip()`. */
  function RStrip(s: string): (r: string)
    ensures |r| <= |s| && r == s[..|r|]
    ensures r == [] || !IsSpace(r[|r| - 1])
  {
    if s != [] && IsSpace(s[|s| - 1]) then RStrip(s[..|s| - 1]) else s
  }

  /** `s.strip()`: it neither starts nor ends with whitespace. */
  function Strip(s: string): (r: string)
    ensures r == [] || (!IsSpace(r[0]) && !IsSpace(r[|r| - 1]))
  {
    RStrip(LStrip(s))
  }

  /** What `lstrip` removes is whitespace. */
  lemma {:induction false} LStripCuts(s: string)
    ensures AllSpace(s[..|s| - |LStrip(s)|])
  {
    if s != [] && IsSpace(s[0]) {
      LStripCuts(s[1..]);
      SpaceCons(s, |s| - |LStrip(s)|);
    }
  }

  /** A space followed by a run of whitespace is a run of whitespace. */
  lemma {:induction false} SpaceCons(s: string, k: nat)
    requires 0 < k <= |s| && IsSpace(s[0]) && AllSpace(s[1..][..k - 1])
    ensures AllSpace(s[..k])
  {
    assert s[..k][1..] == s[1..][..k - 1];
  }

  /** What `rstrip` removes is whitespace. */
  lemma {:induction false} RStripCuts(s: string)
    ensures AllSpace(s[|RStrip(s)|..])
  {
    if s != [] && IsSpace(s[|s| - 1]) {
      RStripCuts(s[..|s| - 1]);
      SpaceSnoc(s, |RStrip(s)|);
    }
  }

  /** A run of whitespace followed by a space is a run of whitespace. */
  lemma {:induction false} SpaceSnoc(s: string, k: nat)
    requires k < |s| && IsSpace(s[|s| - 1]) && AllSpace(s[..|s| - 1][k..])
    ensures AllSpace(s[k..])
  {
    assert s[k..] == s[..|s| - 1][k..] + [s[|s| - 1]];
    AllSpaceConcat(s[..|s| - 1][k..], [s[|s| - 1]]);
  }

  /** `t` is what is left of `s` once a whitespace prefix of length `i`
      and the whitespace after `t` are cut off. */
  ghost predicate Trims(s: string, i: int, t: string)
  {
    0 <= i <= |s| && t <= s[i..] && AllSpace(s[..i]) && AllSpace(s[i + |t|..])
  }

  /** `Strip(s)` is `s` with leading and trailing whitespace cut off; as it
      neither starts nor ends with whitespace, the runs cut are the longest. */
  lemma {:induction false} StripTrims(s: string)
    ensures Trims(s, |s| - |LStrip(s)|, Strip(s))
  {
    LStripCuts(s);
    RStripCuts(LStrip(s));
    TrimsOfCuts(s, LStrip(s), RStrip(LStrip(s)));
  }

  /** Cutting a whitespace prefix of `s` to get `l`, then a whitespace
      suffix of `l` to get `r`, trims `s` to `r`. */
  lemma {:induction false} TrimsOfCuts(s: string, l: string, r: string)
    requires |l| <= |s| && l == s[|s| - |l|..] && AllSpace(s[..|s| - |l|])
    requires |r| <= |l| && r == l[..|r|] && AllSpace(l[|r|..])
    ensures Trims(s, |s| - |l|, r)
  {
    assert s[|s| - |l| + |r|..] == l[|r|..];
  }

  function DigitChar(d: nat): (c: char)
    requires d < 10
    ensures '0' <= c <= '9' && c as int - '0' as int == d
  {
    "0123456789"[d]
  }

  predicate AllDigits(s: string)
  {
    forall k :: 0 <= k < |s| ==> '0' <= s[k] <= '9'
  }

  /** The decimal digits of `n`, without leading zeros. */
  function NatToStr(n: nat): (r: string)
    ensures r != [] && AllDigits(r)
    ensures |r| > 1 ==> r[0] != '0'
  {
    if n < 10 then [DigitChar(n)] else NatToStr(n / 10) + [DigitChar(n % 10)]
  }

  /** `'%d' % n`: decimal, with a leading '-' for a negative number. */
  function IntToStr(n: int): (r: string)
    ensures n >= 0 ==> r == NatToStr(n)
    ensures n < 0 ==> r == "-" + NatToStr(-n)
    ensures forall k :: 0 <= k < |r| ==> r[k] == '-' || '0' <= r[k] <= '9'
  {
    if n < 0 then "-" + NatToStr(-n) else NatToStr(n)
  }

  /** The number a string of decimal digits denotes. */
  function DigitsValue(s: string): nat
    requires AllDigits(s)
  {
    if s == [] then 0 else DigitsValue(s[..|s| - 1]) * 10 + (s[|s| - 1] as int - '0' as int)
  }

  /** `int(s)` for what `'%d'` produces. */
  function ParseInt(s: string): int
    requires s != []
    requires s[0] == '-' ==> AllDigits(s[1..])
    requires s[0] != '-' ==> AllDigits(s)
  {
    if s[0] == '-' then -(DigitsValue(s[1..]) as int) else DigitsValue(s)
  }

  lemma {:induction false} NatToStrRoundTrip(n: nat)
    ensures DigitsValue(NatToStr(n)) == n
  {
    if n >= 10 {
      var r := NatToStr(n);
      assert r[..|r| - 1] == NatToStr(n / 10);
      NatToStrRoundTrip(n / 10);
    }
  }

  /** Reading back what `'%d'` printed gives the number printed. */
  lemma IntToStrRoundTrip(n: int)
    ensures IntToStr(n) != [] && ParseInt(IntToStr(n)) == n
  {
    if n < 0 {
      NegativeRoundTrip(-n);
    } else {
      NatToStrRoundTrip(n);
    }
  }

  lemma NegativeRoundTrip(m: nat)
    requires m > 0
    ensures ParseInt("-" + NatToStr(m)) == -(m as int)
  {
    var d := NatToStr(m);
    var r := "-" + d;
    assert r[0] == '-' && r[1..] == d;
    NatToStrRoundTrip(m);
  }
}
