/**
 * String operations the pages and services rely on: JavaScript's
 * `toLowerCase`, `includes`, `startsWith`, `trim`, `split(' ')` and
 * `join(' ')`, Java's `String.trim`, and decimal rendering of ids.
 * Case folding covers ASCII letters only.
 */
module Text {

  function LowerChar(c: char): char
  {
    if 'A' <= c <= 'Z' then (c as int + 32) as char else c
  }

  /** `s.toLowerCase()`, restricted to ASCII letters. */
  function ToLower(s: string): string
  {
    seq(|s|, i requires 0 <= i < |s| => LowerChar(s[i]))
  }

  /** `s.startsWith(prefix)`. */
  predicate StartsWith(s: string, prefix: string)
  {
    |prefix| <= |s| && s[..|prefix|] == prefix
  }

  /** `s.includes(sub)`: `sub` occurs at some position of `s`. */
  predicate Includes(s: string, sub: string)
  {
    exists i :: 0 <= i <= |s| && StartsWith(s[i..], sub)
  }

  /** Every string includes the empty string (so an empty search term matches everything). */
  lemma IncludesEmpty(s: string)
    ensures Includes(s, "")
  {
    assert StartsWith(s[0..], "");
  }

  /** `s.toLowerCase().includes(term.toLowerCase())`. */
  predicate IncludesIgnoreCase(s: string, term: string)
  {
    Includes(ToLower(s), ToLower(term))
  }

  lemma IncludesIgnoreCaseEmpty(s: string)
    ensures IncludesIgnoreCase(s, "")
  {
    assert ToLower("") == "";
    IncludesEmpty(ToLower(s));
  }

  /**
   * SQL `s LIKE pattern` with no escape character: `%` matches any run of
   * characters, `_` exactly one character, and any other character itself.
   */
  predicate Like(s: string, pattern: string)
    decreases |pattern|, |s|
  {
    if pattern == [] then s == []
    else if pattern[0] == '%' then Like(s, pattern[1..]) || (s != [] && Like(s[1..], pattern))
    else s != [] && (pattern[0] == '_' || pattern[0] == s[0]) && Like(s[1..], pattern[1..])
  }

  /** A pattern without wildcards: each of its characters stands for itself. */
  predicate Literal(p: string)
  {
    forall i :: 0 <= i < |p| ==> p[i] != '%' && p[i] != '_'
  }

  /** `LOWER(s) LIKE LOWER(CONCAT('%', keyword, '%'))`. */
  predicate ContainsPattern(s: string, keyword: string)
  {
    Like(ToLower(s), ToLower("%" + keyword + "%"))
  }

  /** `%` alone matches every string. */
  lemma {:induction false} LikeAnything(s: string)
    ensures Like(s, "%")
  {
    assert "%"[1..] == "";
    if s != [] {
      LikeAnything(s[1..]);
    }
  }

  /** A leading `%` lets the rest of the pattern match any suffix. */
  lemma {:induction false} LikeLeadingPercent(s: string, q: string)
    ensures Like(s, "%" + q) <==> exists i :: 0 <= i <= |s| && Like(s[i..], q)
  {
    assert ("%" + q)[0] == '%' && ("%" + q)[1..] == q;
    assert s[0..] == s;
    if s != [] {
      LikeLeadingPercent(s[1..], q);
      if Like(s[1..], "%" + q) {
        var i :| 0 <= i <= |s[1..]| && Like(s[1..][i..], q);
        assert s[1..][i..] == s[i + 1..];
      }
      if exists i :: 0 <= i <= |s| && Like(s[i..], q) {
        var i :| 0 <= i <= |s| && Like(s[i..], q);
        if i > 0 {
          assert s[1..][i - 1..] == s[i..];
        }
      }
    }
  }

  /** A literal followed by `%` matches exactly the strings it starts. */
  lemma {:induction false} LikeLiteralPrefix(s: string, p: string)
    requires Literal(p)
    ensures Like(s, p + "%") <==> StartsWith(s, p)
  {
    if p == [] {
      assert p + "%" == "%";
      LikeAnything(s);
    } else {
      assert (p + "%")[0] == p[0] && (p + "%")[1..] == p[1..] + "%";
      assert Literal(p[1..]) by {
        forall i | 0 <= i < |p[1..]|
          ensures p[1..][i] != '%' && p[1..][i] != '_'
        {
          assert p[1..][i] == p[i + 1];
        }
      }
      assert p[0] != '%' && p[0] != '_';
      if s != [] {
        LikeLiteralPrefix(s[1..], p[1..]);
        if |p| <= |s| {
          assert s[..|p|] == [s[0]] + s[1..][..|p[1..]|];
          assert p == [p[0]] + p[1..];
        }
      }
    }
  }

  /** On a literal pattern `%p%` is the substring test. */
  lemma LikeLiteralInfix(s: string, p: string)
    requires Literal(p)
    ensures Like(s, "%" + p + "%") <==> Includes(s, p)
  {
    assert "%" + p + "%" == "%" + (p + "%");
    LikeLeadingPercent(s, p + "%");
    forall i | 0 <= i <= |s|
      ensures Like(s[i..], p + "%") <==> StartsWith(s[i..], p)
    {
      LikeLiteralPrefix(s[i..], p);
    }
  }

  /** Lower-casing touches neither `%` nor `_`. */
  lemma ToLowerPattern(k: string)
    ensures ToLower("%" + k + "%") == "%" + ToLower(k) + "%"
    ensures Literal(k) ==> Literal(ToLower(k))
  {
  }

  /** A keyword without wildcards matches as a case-insensitive substring. */
  lemma ContainsPatternLiteral(s: string, keyword: string)
    requires Literal(keyword)
    ensures ContainsPattern(s, keyword) <==> IncludesIgnoreCase(s, keyword)
  {
    ToLowerPattern(keyword);
    LikeLiteralInfix(ToLower(s), ToLower(keyword));
  }

  /** The empty keyword matches every string. */
  lemma ContainsPatternEmpty(s: string)
    ensures ContainsPattern(s, "")
  {
    assert "%" + "" + "%" == "%" + "%";
    ToLowerPattern("");
    LikeLeadingPercent(ToLower(s), "%");
    LikeAnything(ToLower(s));
    assert ToLower(s)[0..] == ToLower(s);
  }

  /** The keyword `_` matches every non-empty string and only those. */
  lemma ContainsPatternUnderscore(s: string)
    ensures ContainsPattern(s, "_") <==> s != []
  {
    var t := ToLower(s);
    ToLowerPattern("_");
    assert ToLower("_") == "_";
    assert "%" + "_" + "%" == "%" + "_%";
    LikeLeadingPercent(t, "_%");
    assert "_%"[0] == '_' && "_%"[1..] == "%";
    forall i | 0 <= i <= |t|
      ensures Like(t[i..], "_%") <==> i < |t|
    {
      if i < |t| {
        LikeAnything(t[i..][1..]);
      }
    }
    if s != [] {
      assert Like(t[0..], "_%");
    }
  }

  /** The characters JavaScript's `trim` removes: white space and line terminators. */
  predicate IsJsWhitespace(c: char)
  {
    c == ' ' || c == '\t' || c == '\n' || c == '\r' || c == '\U{000B}' || c == '\U{000C}'
    || c == '\U{00A0}' || c == '\U{1680}' || ('\U{2000}' <= c <= '\U{200A}')
    || c == '\U{2028}' || c == '\U{2029}' || c == '\U{202F}' || c == '\U{205F}'
    || c == '\U{3000}' || c == '\U{FEFF}'
  }

  /** The characters Java's `String.trim` removes: every code point up to U+0020. */
  predicate IsJavaTrimmable(c: char)
  {
    c <= ' '
  }

  /** `r` occurs in `s` starting at position `i`. */
  predicate SliceAt(r: string, s: string, i: int)
  {
    0 <= i <= |s| - |r| && s[i..i + |r|] == r
  }

  /** `r` is a contiguous piece of `s`. */
  ghost predicate IsSlice(r: string, s: string)
  {
    exists i :: SliceAt(r, s, i)
  }

  /** Removes the leading and trailing characters satisfying `ws`. */
  function Trim(s: string, ws: char -> bool): (r: string)
    ensures IsSlice(r, s)
    ensures r != [] ==> !ws(r[0]) && !ws(r[|r| - 1])
    ensures r == [] <==> forall k :: 0 <= k < |s| ==> ws(s[k])
  {
    TrimIsSlice(s, ws);
    TrimEnd(TrimStart(s, ws), ws)
  }

  lemma TrimIsSlice(s: string, ws: char -> bool)
    ensures IsSlice(TrimEnd(TrimStart(s, ws), ws), s)
  {
    var u := TrimStart(s, ws);
    var i := |s| - |u|;
    var r := TrimEnd(u, ws);
    var j := |r|;
    assert r == u[..j];
    assert u == s[i..];
    assert s[i..][..j] == s[i..i + j];
    assert r == s[i..i + j];
    assert SliceAt(r, s, i);
  }

  function TrimStart(s: string, ws: char -> bool): (r: string)
    ensures |r| <= |s| && r == s[|s| - |r|..]
    ensures r != [] ==> !ws(r[0])
    ensures r == [] <==> forall k :: 0 <= k < |s| ==> ws(s[k])
  {
    if s == [] then s
    else if ws(s[0]) then
      var r := TrimStart(s[1..], ws);
      assert forall k :: 1 <= k < |s| ==> s[1..][k - 1] == s[k];
      assert s[1..][|s| - 1 - |r|..] == s[|s| - |r|..];
      r
    else
      assert s == s[0..];
      s
  }

  function TrimEnd(s: string, ws: char -> bool): (r: string)
    ensures |r| <= |s| && r == s[..|r|]
    ensures r != [] ==> !ws(r[|r| - 1])
    ensures r == [] <==> forall k :: 0 <= k < |s| ==> ws(s[k])
  {
    if s == [] then s
    else if ws(s[|s| - 1]) then
      var r := TrimEnd(s[..|s| - 1], ws);
      assert s[..|s| - 1][..|r|] == s[..|r|];
      r
    else
      assert s == s[..|s|];
      s
  }

  /** `s.trim()` in JavaScript. */
  function JsTrim(s: string): string
  {
    Trim(s, IsJsWhitespace)
  }

  /** `s.trim()` in Java. */
  function JavaTrim(s: string): string
  {
    Trim(s, IsJavaTrimmable)
  }

  /** `s.split(sep)` for a one-character separator: the pieces between separators. */
  function Split(s: string, sep: char): (parts: seq<string>)
    ensures |parts| >= 1
    ensures forall k :: 0 <= k < |parts| ==> sep !in parts[k]
  {
    if s == [] then [""]
    else
      var p := Split(s[..|s| - 1], sep);
      var c := s[|s| - 1];
      if c == sep then p + [""]
      else p[..|p| - 1] + [p[|p| - 1] + [c]]
  }

  /** `parts.join(sep)`. */
  function Join(parts: seq<string>, sep: char): string
  {
    if parts == [] then ""
    else if |parts| == 1 then parts[0]
    else Join(parts[..|parts| - 1], sep) + [sep] + parts[|parts| - 1]
  }

  /** Joining the pieces of a split restores the string. */
  lemma {:induction false} JoinSplit(s: string, sep: char)
    ensures Join(Split(s, sep), sep) == s
  {
    if s != [] {
      var t, c := s[..|s| - 1], s[|s| - 1];
      JoinSplit(t, sep);
      SnocShape([], s);
      if c == sep {
        SplitSnocSeparator(t, sep);
        JoinAppendEmpty(Split(t, sep), sep);
      } else {
        SplitSnocOther(t, c, sep);
        JoinExtendLast(Split(t, sep), [c], sep);
      }
    }
  }

  /** An empty last piece adds just the separator. */
  lemma JoinAppendEmpty(p: seq<string>, sep: char)
    requires |p| >= 1
    ensures Join(p + [""], sep) == Join(p, sep) + [sep]
  {
    assert (p + [""])[..|p|] == p;
  }

  /** Extending the last piece extends the joined string. */
  lemma JoinExtendLast(p: seq<string>, tail: string, sep: char)
    requires |p| >= 1
    ensures Join(p[..|p| - 1] + [p[|p| - 1] + tail], sep) == Join(p, sep) + tail
  {
    var q := p[..|p| - 1] + [p[|p| - 1] + tail];
    assert q[..|q| - 1] == p[..|p| - 1];
  }

  /** Splitting `a + sep + b` where `a` has no separator gives `a` followed by the pieces of `b`. */
  lemma {:induction false} SplitAfterFirst(a: string, b: string, sep: char)
    requires sep !in a
    ensures Split(a + [sep] + b, sep) == [a] + Split(b, sep)
  {
    if b == [] {
      SplitNoSeparator(a, sep);
      SplitSnocSeparator(a, sep);
      assert a + [sep] + b == a + [sep];
    } else {
      var b', c := b[..|b| - 1], b[|b| - 1];
      SplitAfterFirst(a, b', sep);
      SplitSnocBehind(a + [sep] + b', b', a, c, sep);
      SnocShape(a + [sep], b);
    }
  }

  lemma SnocShape(x: string, b: string)
    requires b != []
    ensures x + b == (x + b[..|b| - 1]) + [b[|b| - 1]]
    ensures b == b[..|b| - 1] + [b[|b| - 1]]
  {
  }

  /** When `x` splits into `a` followed by the pieces of `y`, appending a character keeps that so. */
  lemma SplitSnocBehind(x: string, y: string, a: string, c: char, sep: char)
    requires Split(x, sep) == [a] + Split(y, sep)
    ensures Split(x + [c], sep) == [a] + Split(y + [c], sep)
  {
    var p := Split(y, sep);
    if c == sep {
      SplitSnocSeparator(x, sep);
      SplitSnocSeparator(y, sep);
      assert ([a] + p) + [""] == [a] + (p + [""]);
    } else {
      SplitSnocOther(x, c, sep);
      SplitSnocOther(y, c, sep);
      ExtendLastBehind(a, p, c);
    }
  }

  /** Appending the separator starts a new, empty piece. */
  lemma SplitSnocSeparator(s: string, sep: char)
    ensures Split(s + [sep], sep) == Split(s, sep) + [""]
  {
    assert (s + [sep])[..|s|] == s;
  }

  /** Appending another character extends the last piece. */
  lemma SplitSnocOther(s: string, c: char, sep: char)
    requires c != sep
    ensures Split(s + [c], sep) == ExtendLast(Split(s, sep), c)
  {
    assert (s + [c])[..|s|] == s;
  }

  /** The pieces with `c` added to the last one. */
  function ExtendLast(p: seq<string>, c: char): seq<string>
    requires |p| >= 1
  {
    p[..|p| - 1] + [p[|p| - 1] + [c]]
  }

  lemma ExtendLastBehind(a: string, p: seq<string>, c: char)
    requires |p| >= 1
    ensures ExtendLast([a] + p, c) == [a] + ExtendLast(p, c)
  {
    var q := [a] + p;
    assert q[..|q| - 1] == [a] + p[..|p| - 1];
  }

  /** A string without the separator splits into itself alone. */
  lemma {:induction false} SplitNoSeparator(a: string, sep: char)
    requires sep !in a
    ensures Split(a, sep) == [a]
  {
    if a != [] {
      SplitNoSeparator(a[..|a| - 1], sep);
      assert a[..|a| - 1] + [a[|a| - 1]] == a;
    }
  }

  /** Splitting at the first separator: the first piece and the rejoined rest. */
  lemma SplitAtFirst(s: string, i: nat, sep: char)
    requires i < |s| && s[i] == sep && sep !in s[..i]
    ensures Split(s, sep)[0] == s[..i]
    ensures Join(Split(s, sep)[1..], sep) == s[i + 1..]
  {
    assert s == s[..i] + [sep] + s[i + 1..];
    SplitAfterFirst(s[..i], s[i + 1..], sep);
    JoinSplit(s[i + 1..], sep);
    assert Split(s, sep)[1..] == Split(s[i + 1..], sep);
  }

  /**
   * The order of JavaScript's default `sort` on strings: character by
   * character, a proper prefix first.
   */
  predicate LexLe(a: string, b: string)
  {
    a == [] || (b != [] && (a[0] < b[0] || (a[0] == b[0] && LexLe(a[1..], b[1..]))))
  }

  lemma {:induction false} LexLeReflexive(a: string)
    ensures LexLe(a, a)
  {
    if a != [] {
      LexLeReflexive(a[1..]);
    }
  }

  lemma {:induction false} LexLeTotal(a: string, b: string)
    ensures LexLe(a, b) || LexLe(b, a)
  {
    if a != [] && b != [] && a[0] == b[0] {
      LexLeTotal(a[1..], b[1..]);
    }
  }

  lemma {:induction false} LexLeAntisymmetric(a: string, b: string)
    requires LexLe(a, b) && LexLe(b, a)
    ensures a == b
  {
    if a != [] && b != [] {
      LexLeAntisymmetric(a[1..], b[1..]);
      assert a == [a[0]] + a[1..] && b == [b[0]] + b[1..];
    }
  }

  lemma {:induction false} LexLeTransitive(a: string, b: string, c: string)
    requires LexLe(a, b) && LexLe(b, c)
    ensures LexLe(a, c)
  {
    if a != [] && b != [] && c != [] && a[0] == b[0] && b[0] == c[0] {
      LexLeTransitive(a[1..], b[1..], c[1..]);
    }
  }

  /** Every non-empty finite set of strings has a least element. */
  lemma {:induction false} LexMinExists(s: set<string>)
    requires s != {}
    ensures exists m :: m in s && IsLexMin(m, s)
    decreases |s|
  {
    var y :| y in s;
    if s == {y} {
      LexLeReflexive(y);
      assert IsLexMin(y, s);
    } else {
      LexMinExists(s - {y});
      var m :| m in s - {y} && IsLexMin(m, s - {y});
      LexLeTotal(m, y);
      if LexLe(m, y) {
        assert IsLexMin(m, s);
      } else {
        forall x | x in s
          ensures LexLe(y, x)
        {
          if x == y {
            LexLeReflexive(y);
          } else {
            assert LexLe(m, x);
            LexLeTransitive(y, m, x);
          }
        }
        assert IsLexMin(y, s);
      }
    }
  }

  /** `m` comes first among the strings of `s`. */
  predicate IsLexMin(m: string, s: set<string>)
  {
    forall x :: x in s ==> LexLe(m, x)
  }

  function DigitChar(d: nat): char
    requires d < 10
  {
    ['0', '1', '2', '3', '4', '5', '6', '7', '8', '9'][d]
  }

  /** The decimal rendering of a number, as a template literal produces it. */
  function NatToString(n: nat): (s: string)
    ensures |s| >= 1
    ensures forall k :: 0 <= k < |s| ==> '0' <= s[k] <= '9'
  {
    if n < 10 then [DigitChar(n)]
    else NatToString(n / 10) + [DigitChar(n % 10)]
  }
}
