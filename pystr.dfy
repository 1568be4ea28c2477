/** The Python `str` operations the wrapper relies on, on `string` = `seq<char>`:
    `strip()`, `upper()`, `lower()`, `split(sep)`, the `in` substring test,
    and `sep.join(parts)` as the inverse of `split`.

    Case mapping is ASCII only (see README, "Left out"); the whitespace set of
    `strip()` is Python's full `str.isspace()` set.
 */
module PyStr {

  // ---------------------------------------------------------------------------
  // strip()
  // ---------------------------------------------------------------------------

  /** The characters `str.isspace()` accepts, which `str.strip()` removes. */
  predicate IsSpace(c: char)
  {
    ('\t' <= c <= '\r') || ('\U{1C}' <= c <= '\U{1F}') || c == ' '
    || c == '\U{85}' || c == '\U{A0}' || c == '\U{1680}'
    || ('\U{2000}' <= c <= '\U{200A}') || c == '\U{2028}' || c == '\U{2029}'
    || c == '\U{202F}' || c == '\U{205F}' || c == '\U{3000}'
  }

  predicate AllSpace(s: string)
  {
    forall i :: 0 <= i < |s| ==> IsSpace(s[i])
  }

  /** Neither end of `t` is whitespace (vacuously so for the empty string). */
  predicate Trimmed(t: string)
  {
    t == [] || (!IsSpace(t[0]) && !IsSpace(t[|t| - 1]))
  }

  function StripLeading(s: string): string
  {
    if s != [] && IsSpace(s[0]) then StripLeading(s[1..]) else s
  }

  function StripTrailing(s: string): string
  {
    if s != [] && IsSpace(s[|s| - 1]) then StripTrailing(s[..|s| - 1]) else s
  }

  /** `s.strip()` */
  function Strip(s: string): string
  {
    StripTrailing(StripLeading(s))
  }

  lemma {:induction false} StripLeadingShape(s: string)
    ensures var r := StripLeading(s);
      |r| <= |s| && r == s[|s| - |r|..] && AllSpace(s[..|s| - |r|])
      && (r == [] || !IsSpace(r[0]))
  {
    if s != [] && IsSpace(s[0]) {
      StripLeadingShape(s[1..]);
      var r := StripLeading(s);
      assert s[..|s| - |r|] == [s[0]] + s[1..][..|s| - 1 - |r|];
    }
  }

  lemma {:induction false} StripTrailingShape(s: string)
    ensures var r := StripTrailing(s);
      |r| <= |s| && r == s[..|r|] && AllSpace(s[|r|..])
      && (r == [] || !IsSpace(r[|r| - 1]))
  {
    if s != [] && IsSpace(s[|s| - 1]) {
      var s' := s[..|s| - 1];
      StripTrailingShape(s');
      var r := StripTrailing(s);
      assert s[|r|..] == s'[|r|..] + [s[|s| - 1]];
    }
  }

  /** `s.strip()` is the slice of `s` left after removing the whitespace run at
      each end: everything removed is whitespace and what remains is trimmed. */
  lemma StripShape(s: string)
    ensures var t := Strip(s); var i := |s| - |StripLeading(s)|;
      0 <= i && i + |t| <= |s| && t == s[i..i + |t|]
      && AllSpace(s[..i]) && AllSpace(s[i + |t|..]) && Trimmed(t)
  {
    var u := StripLeading(s);
    var t := Strip(s);
    var i := |s| - |u|;
    StripLeadingShape(s);
    StripTrailingShape(u);
    assert u[|t|..] == s[i + |t|..];
  }

  lemma {:induction false} StripLeadingSpaces(a: string, u: string)
    requires AllSpace(a)
    ensures StripLeading(a + u) == StripLeading(u)
  {
    if a != [] {
      assert (a + u)[0] == a[0] && IsSpace(a[0]);
      assert (a + u)[1..] == a[1..] + u;
      assert AllSpace(a[1..]) by {
        forall i | 0 <= i < |a| - 1 ensures IsSpace(a[1..][i]) {
          assert a[1..][i] == a[i + 1];
        }
      }
      assert StripLeading(a + u) == StripLeading(a[1..] + u);
      StripLeadingSpaces(a[1..], u);
    } else {
      assert a + u == u;
    }
  }

  lemma {:induction false} StripTrailingSpaces(u: string, b: string)
    requires AllSpace(b)
    ensures StripTrailing(u + b) == StripTrailing(u)
  {
    if b != [] {
      var b' := b[..|b| - 1];
      assert (u + b)[|u + b| - 1] == b[|b| - 1] && IsSpace(b[|b| - 1]);
      assert (u + b)[..|u + b| - 1] == u + b';
      assert AllSpace(b') by {
        forall i | 0 <= i < |b'| ensures IsSpace(b'[i]) {
          assert b'[i] == b[i];
        }
      }
      assert StripTrailing(u + b) == StripTrailing(u + b');
      StripTrailingSpaces(u, b');
    } else {
      assert u + b == u;
    }
  }

  lemma {:induction false} StripLeadingAllSpace(a: string)
    requires AllSpace(a)
    ensures StripLeading(a) == []
  {
    if a != [] {
      StripLeadingAllSpace(a[1..]);
    }
  }

  /** Surrounding a trimmed string with whitespace is undone by `strip()`. */
  lemma StripSurrounded(a: string, t: string, b: string)
    requires AllSpace(a) && AllSpace(b) && Trimmed(t)
    ensures Strip(a + t + b) == t
  {
    assert a + t + b == a + (t + b);
    StripLeadingSpaces(a, t + b);
    if t == [] {
      assert t + b == b;
      StripLeadingAllSpace(b);
    } else {
      StripTrailingSpaces(t, b);
    }
  }

  /** `s.strip().strip() == s.strip()` */
  lemma StripIdempotent(s: string)
    ensures Strip(Strip(s)) == Strip(s)
  {
    var t := Strip(s);
    StripShape(s);
    assert [] + t + [] == t;
    StripSurrounded([], t, []);
  }

  // ---------------------------------------------------------------------------
  // upper() / lower()
  // ---------------------------------------------------------------------------

  function UpperChar(c: char): char
  {
    if 'a' <= c <= 'z' then (c as int - 32) as char else c
  }

  function LowerChar(c: char): char
  {
    if 'A' <= c <= 'Z' then (c as int + 32) as char else c
  }

  /** `s.upper()` */
  function Upper(s: string): string
  {
    if s == [] then [] else [UpperChar(s[0])] + Upper(s[1..])
  }

  /** `s.lower()` */
  function Lower(s: string): string
  {
    if s == [] then [] else [LowerChar(s[0])] + Lower(s[1..])
  }

  lemma {:induction false} UpperAt(s: string)
    ensures |Upper(s)| == |s|
    ensures forall i :: 0 <= i < |s| ==> Upper(s)[i] == UpperChar(s[i])
  {
    if s != [] {
      UpperAt(s[1..]);
    }
  }

  lemma {:induction false} LowerAt(s: string)
    ensures |Lower(s)| == |s|
    ensures forall i :: 0 <= i < |s| ==> Lower(s)[i] == LowerChar(s[i])
  {
    if s != [] {
      LowerAt(s[1..]);
    }
  }

  /** Lower-casing forgets the case the text was written in:
      `s.upper().lower() == s.lower()`. */
  lemma LowerOfUpper(s: string)
    ensures Lower(Upper(s)) == Lower(s)
  {
    UpperAt(s);
    LowerAt(Upper(s));
    LowerAt(s);
  }

  lemma LowerConcat(a: string, b: string)
    ensures Lower(a + b) == Lower(a) + Lower(b)
  {
    LowerAt(a + b);
    LowerAt(a);
    LowerAt(b);
  }

  // ---------------------------------------------------------------------------
  // the substring test `sub in s`
  // ---------------------------------------------------------------------------

  predicate OccursAt(s: string, sub: string, i: int)
  {
    0 <= i <= |s| - |sub| && s[i..i + |sub|] == sub
  }

  predicate Contains(s: string, sub: string)
  {
    exists i :: 0 <= i <= |s| - |sub| && OccursAt(s, sub, i)
  }

  /** A substring stays a substring when text is added around it. */
  lemma ContainsInContext(a: string, m: string, b: string, sub: string)
    requires Contains(m, sub)
    ensures Contains(a + m + b, sub)
  {
    var i :| 0 <= i <= |m| - |sub| && OccursAt(m, sub, i);
    var s := a + m + b;
    assert s[|a| + i..|a| + i + |sub|] == m[i..i + |sub|];
    assert OccursAt(s, sub, |a| + i);
  }

  // ---------------------------------------------------------------------------
  // split(sep) and its inverse sep.join(parts)
  // ---------------------------------------------------------------------------

  /** `s.split(sep)` for a one-character separator: every occurrence of `sep`
      cuts, so empty pieces are kept and there is always at least one piece. */
  function Split(s: string, sep: char): (parts: seq<string>)
    ensures |parts| >= 1
  {
    if s == [] then [[]]
    else
      var rest := Split(s[1..], sep);
      if s[0] == sep then [[]] + rest else [[s[0]] + rest[0]] + rest[1..]
  }

  /** `[sep].join(parts)` */
  function Join(parts: seq<string>, sep: char): string
    requires |parts| >= 1
  {
    if |parts| == 1 then parts[0] else parts[0] + [sep] + Join(parts[1..], sep)
  }

  predicate SepFree(parts: seq<string>, sep: char)
  {
    forall i :: 0 <= i < |parts| ==> sep !in parts[i]
  }

  /** No piece produced by `split` contains the separator. */
  lemma {:induction false} SplitSepFree(s: string, sep: char)
    ensures SepFree(Split(s, sep), sep)
  {
    if s != [] {
      SplitSepFree(s[1..], sep);
    }
  }

  /** Joining the pieces gives the original string back. */
  lemma {:induction false} JoinSplit(s: string, sep: char)
    ensures Join(Split(s, sep), sep) == s
  {
    if s != [] {
      var rest := Split(s[1..], sep);
      JoinSplit(s[1..], sep);
      if s[0] == sep {
        assert Split(s, sep)[1..] == rest;
      } else {
        var parts := Split(s, sep);
        if |rest| == 1 {
          assert parts == [[s[0]] + rest[0]];
        } else {
          assert parts[1..] == rest[1..];
          assert Join(rest, sep) == rest[0] + [sep] + Join(rest[1..], sep);
        }
      }
    }
  }

  /** Splitting after a separator-free prefix `t` only extends the first piece. */
  lemma {:induction false} SplitPrefix(t: string, u: string, sep: char)
    requires sep !in t
    ensures Split(t + u, sep) == [t + Split(u, sep)[0]] + Split(u, sep)[1..]
  {
    if t != [] {
      assert (t + u)[1..] == t[1..] + u;
      SplitPrefix(t[1..], u, sep);
      assert [t[0]] + (t[1..] + Split(u, sep)[0]) == t + Split(u, sep)[0];
    } else {
      assert t + u == u;
      var p := Split(u, sep);
      assert t + p[0] == p[0];
      assert p == [p[0]] + p[1..];
    }
  }

  /** A separator-free piece followed by the separator is split off as one piece. */
  lemma SplitCons(t: string, rest: string, sep: char)
    requires sep !in t
    ensures Split(t + [sep] + rest, sep) == [t] + Split(rest, sep)
  {
    assert t + [sep] + rest == t + ([sep] + rest);
    SplitPrefix(t, [sep] + rest, sep);
    assert ([sep] + rest)[1..] == rest;
    assert t + [] == t;
  }

  /** Splitting a string that is known to be a join of separator-free pieces
      gives those pieces back. */
  lemma {:induction false} SplitJoin(parts: seq<string>, sep: char)
    requires |parts| >= 1 && SepFree(parts, sep)
    ensures Split(Join(parts, sep), sep) == parts
  {
    if |parts| == 1 {
      SplitPrefix(parts[0], [], sep);
      assert parts[0] + [] == parts[0];
    } else {
      var rest := Join(parts[1..], sep);
      SplitJoin(parts[1..], sep);
      assert parts[0] + [sep] + rest == parts[0] + ([sep] + rest);
      SplitPrefix(parts[0], [sep] + rest, sep);
      assert ([sep] + rest)[1..] == rest;
      assert parts[0] + [] == parts[0];
    }
  }

  /** The first piece of a split with at least two pieces ends right before
      the first separator, and the remaining pieces are the split of the rest. */
  lemma SplitHead(s: string, sep: char)
    requires |Split(s, sep)| >= 2
    ensures var t := Split(s, sep)[0];
      |t| < |s| && s[..|t|] == t && s[|t|] == sep
      && Split(s[|t| + 1..], sep) == Split(s, sep)[1..]
  {
    var parts := Split(s, sep);
    SplitSepFree(s, sep);
    JoinSplit(s, sep);
    var t := parts[0];
    var rest := Join(parts[1..], sep);
    assert s == t + [sep] + rest;
    assert s[|t| + 1..] == rest;
    assert SepFree(parts[1..], sep) by {
      forall i | 0 <= i < |parts| - 1 ensures sep !in parts[1..][i] {
        assert parts[1..][i] == parts[i + 1];
      }
    }
    SplitJoin(parts[1..], sep);
  }
}
