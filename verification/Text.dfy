/**
 * The string operations the request handler borrows from the .NET base
 * library: String.Split(char), String.ToLower() (ASCII letters only) and
 * String.Trim() (the Latin-1 white-space characters of Char.IsWhiteSpace).
 */
module Text {

  /** Number of occurrences of `c` in `s`. */
  function Count(s: string, c: char): nat
  {
    if s == [] then 0 else (if s[0] == c then 1 else 0) + Count(s[1..], c)
  }

  /** Index of the first `c` in `s`, or |s| when there is none. */
  function IndexOf(s: string, c: char): (i: nat)
    ensures i <= |s|
    ensures i < |s| <==> c in s
    ensures i < |s| ==> s[i] == c
    ensures c !in s[..i]
  {
    if s == [] then 0
    else if s[0] == c then 0
    else
      var j := IndexOf(s[1..], c);
      assert s[1..][..j] == s[1..j + 1];
      assert s[..j + 1] == [s[0]] + s[1..j + 1];
      j + 1
  }

  /**
   * String.Split(sep): the pieces of `s` between the separators, in order.
   * There is always one piece more than there are separators, and an empty
   * string splits into a single empty piece.
   */
  function Split(s: string, sep: char): (parts: seq<string>)
    ensures |parts| == Count(s, sep) + 1
    ensures forall i :: 0 <= i < |parts| ==> sep !in parts[i]
  {
    if s == [] then [""]
    else
      var rest := Split(s[1..], sep);
      if s[0] == sep then [""] + rest
      else [[s[0]] + rest[0]] + rest[1..]
  }

  /** The inverse of Split: the pieces glued back with the separator. */
  function Join(parts: seq<string>, sep: char): string
    requires |parts| >= 1
  {
    if |parts| == 1 then parts[0] else parts[0] + [sep] + Join(parts[1..], sep)
  }

  /** Joining the pieces of a split gives back the original string. */
  lemma {:induction false} JoinSplit(s: string, sep: char)
    ensures Join(Split(s, sep), sep) == s
  {
    if s != [] {
      JoinSplit(s[1..], sep);
      var rest := Split(s[1..], sep);
      if s[0] != sep {
        if |rest| == 1 {
          assert Split(s, sep) == [[s[0]] + rest[0]];
        } else {
          assert Split(s, sep)[1..] == rest[1..];
        }
      } else {
        assert Split(s, sep)[1..] == rest;
      }
    }
  }

  /** Splitting after a piece free of the separator peels that piece off. */
  lemma {:induction false} SplitCons(p: string, rest: string, sep: char)
    requires sep !in p
    ensures Split(p + [sep] + rest, sep) == [p] + Split(rest, sep)
  {
    if p != [] {
      SplitCons(p[1..], rest, sep);
      var s := p + [sep] + rest;
      assert s[0] == p[0] && s[1..] == p[1..] + [sep] + rest;
      var r := Split(s[1..], sep);
      assert r == [p[1..]] + Split(rest, sep);
      assert r[0] == p[1..] && r[1..] == Split(rest, sep);
      assert [p[0]] + p[1..] == p;
    } else {
      assert p + [sep] + rest == [sep] + rest;
      assert ([sep] + rest)[1..] == rest;
    }
  }

  /** A final separator-free piece comes out as the last piece. */
  lemma {:induction false} SplitSnoc(s: string, t: string, sep: char)
    requires sep !in t
    ensures Split(s + [sep] + t, sep) == Split(s, sep) + [t]
  {
    if s == [] {
      assert s + [sep] + t == [sep] + t;
      assert ([sep] + t)[1..] == t;
      SplitNoSep(t, sep);
    } else {
      SplitSnoc(s[1..], t, sep);
      var u := s + [sep] + t;
      assert u[0] == s[0] && u[1..] == s[1..] + [sep] + t;
      var r := Split(s[1..], sep);
      var ru := Split(u[1..], sep);
      assert ru == r + [t];
      if s[0] != sep {
        assert ru[0] == r[0];
        assert ru[1..] == r[1..] + [t];
      }
    }
  }

  /** A string free of the separator splits into itself alone. */
  lemma {:induction false} SplitNoSep(s: string, sep: char)
    requires sep !in s
    ensures Split(s, sep) == [s]
  {
    if s != [] {
      SplitNoSep(s[1..], sep);
      assert [s[0]] + s[1..] == s;
    }
  }

  /** Splitting a join of separator-free pieces gives the pieces back. */
  lemma {:induction false} SplitJoin(parts: seq<string>, sep: char)
    requires |parts| >= 1
    requires forall i :: 0 <= i < |parts| ==> sep !in parts[i]
    ensures Split(Join(parts, sep), sep) == parts
  {
    if |parts| == 1 {
      SplitNoSep(parts[0], sep);
    } else {
      SplitJoin(parts[1..], sep);
      SplitCons(parts[0], Join(parts[1..], sep), sep);
      assert [parts[0]] + parts[1..] == parts;
    }
  }

  /**
   * The first piece is everything before the first separator, and there is
   * a second piece exactly when the separator occurs.
   */
  lemma {:induction false} SplitHead(s: string, sep: char)
    ensures Split(s, sep)[0] == s[..IndexOf(s, sep)]
    ensures |Split(s, sep)| > 1 <==> sep in s
  {
    var i := IndexOf(s, sep);
    if sep in s {
      SplitCons(s[..i], s[i + 1..], sep);
      assert s[..i] + [sep] + s[i + 1..] == s;
    } else {
      SplitNoSep(s, sep);
      assert s[..|s|] == s;
    }
  }

  /** Char.ToLower restricted to ASCII: 'A'..'Z' become 'a'..'z'. */
  function LowerChar(c: char): char
  {
    if 'A' <= c <= 'Z' then (c as int + 32) as char else c
  }

  /** String.ToLower() restricted to ASCII letters: every character lowered in place. */
  function ToLower(s: string): (r: string)
    ensures |r| == |s|
  {
    seq(|s|, i requires 0 <= i < |s| => LowerChar(s[i]))
  }

  /** Lowering is idempotent. */
  lemma LowerTwice(s: string)
    ensures ToLower(ToLower(s)) == ToLower(s)
  {
  }

  /** Lowering works piece by piece. */
  lemma LowerConcat(a: string, b: string)
    ensures ToLower(a + b) == ToLower(a) + ToLower(b)
  {
    assert forall i :: 0 <= i < |a + b| ==> ToLower(a + b)[i] == (ToLower(a) + ToLower(b))[i];
  }

  /** Two strings that agree letter by letter up to ASCII case lower to the same string. */
  ghost predicate SameIgnoringCase(a: string, b: string)
  {
    |a| == |b| && forall i :: 0 <= i < |a| ==> LowerChar(a[i]) == LowerChar(b[i])
  }

  lemma LowerIgnoresCase(a: string, b: string)
    requires SameIgnoringCase(a, b)
    ensures ToLower(a) == ToLower(b)
  {
    assert forall i :: 0 <= i < |a| ==> ToLower(a)[i] == ToLower(b)[i];
  }

  /** A string without upper-case ASCII letters is its own lower-case form. */
  lemma LowerNoUpper(s: string)
    requires forall i :: 0 <= i < |s| ==> !('A' <= s[i] <= 'Z')
    ensures ToLower(s) == s
  {
  }

  /** Char.IsWhiteSpace on the Latin-1 range. */
  predicate IsWhiteSpace(c: char)
  {
    c == ' ' || '\t' <= c <= '\r' || c == '\U{85}' || c == '\U{A0}'
  }

  ghost predicate AllWhite(s: string)
  {
    forall i :: 0 <= i < |s| ==> IsWhiteSpace(s[i])
  }

  /** Lowering neither creates nor destroys white space. */
  lemma LowerKeepsWhite(s: string)
    ensures AllWhite(ToLower(s)) <==> AllWhite(s)
  {
    assert forall i :: 0 <= i < |s| ==> ToLower(s)[i] == LowerChar(s[i]);
  }

  /** String.TrimStart(): `s` without its leading white space. */
  function TrimStart(s: string): (r: string)
    ensures |r| <= |s|
  {
    if s != [] && IsWhiteSpace(s[0]) then TrimStart(s[1..]) else s
  }

  /** String.TrimEnd(): `s` without its trailing white space. */
  function TrimEnd(s: string): (r: string)
    ensures |r| <= |s|
  {
    if s != [] && IsWhiteSpace(s[|s| - 1]) then TrimEnd(s[..|s| - 1]) else s
  }

  /** TrimStart removes a white prefix, and exactly the longest one. */
  lemma {:induction false} TrimStartSpec(s: string)
    ensures var r := TrimStart(s);
      && r == s[|s| - |r|..]
      && AllWhite(s[..|s| - |r|])
      && (r == [] || !IsWhiteSpace(r[0]))
  {
    if s != [] && IsWhiteSpace(s[0]) {
      TrimStartSpec(s[1..]);
      var r := TrimStart(s);
      assert s[1..][..|s| - 1 - |r|] == s[1..|s| - |r|];
    }
  }

  /** TrimEnd removes a white suffix, and exactly the longest one. */
  lemma {:induction false} TrimEndSpec(s: string)
    ensures var r := TrimEnd(s);
      && r == s[..|r|]
      && AllWhite(s[|r|..])
      && (r == [] || !IsWhiteSpace(r[|r| - 1]))
  {
    if s != [] && IsWhiteSpace(s[|s| - 1]) {
      var s' := s[..|s| - 1];
      TrimEndSpec(s');
      var r := TrimEnd(s);
      assert s[..|r|] == s'[..|r|];
      assert s[|r|..] == s'[|r|..] + [s[|s| - 1]];
    }
  }

  /** String.Trim(): both ends stripped of white space. */
  function Trim(s: string): string
  {
    TrimEnd(TrimStart(s))
  }

  lemma {:induction false} TrimStartPadded(p: string, s: string)
    requires AllWhite(p)
    ensures TrimStart(p + s) == TrimStart(s)
  {
    if p != [] {
      assert (p + s)[1..] == p[1..] + s;
      TrimStartPadded(p[1..], s);
    } else {
      assert p + s == s;
    }
  }

  lemma {:induction false} TrimEndPadded(s: string, q: string)
    requires AllWhite(q)
    ensures TrimEnd(s + q) == TrimEnd(s)
  {
    if q != [] {
      var q' := q[..|q| - 1];
      assert (s + q)[..|s + q| - 1] == s + q';
      TrimEndPadded(s, q');
    } else {
      assert s + q == s;
    }
  }

  /** A string without leading white space keeps that property under TrimEnd. */
  lemma TrimEndKeepsStart(s: string)
    requires s == [] || !IsWhiteSpace(s[0])
    ensures TrimStart(TrimEnd(s)) == TrimEnd(s)
  {
    TrimEndSpec(s);
  }

  /** Trimming is idempotent. */
  lemma TrimTwice(s: string)
    ensures Trim(Trim(s)) == Trim(s)
  {
    TrimStartSpec(s);
    TrimEndKeepsStart(TrimStart(s));
    TrimEndSpec(TrimStart(s));
  }

  /** TrimStart of a string followed by white space. */
  lemma {:induction false} TrimStartAppend(s: string, q: string)
    requires AllWhite(q)
    ensures TrimStart(s + q) == if TrimStart(s) == [] then TrimStart(q) else TrimStart(s) + q
  {
    if s == [] {
      assert s + q == q;
    } else if IsWhiteSpace(s[0]) {
      assert (s + q)[1..] == s[1..] + q;
      TrimStartAppend(s[1..], q);
    }
  }

  /** White space around a string does not change its trimmed form. */
  lemma TrimPadded(p: string, s: string, q: string)
    requires AllWhite(p) && AllWhite(q)
    ensures Trim(p + s + q) == Trim(s)
  {
    assert p + s + q == p + (s + q);
    TrimStartPadded(p, s + q);
    TrimStartAppend(s, q);
    var t := TrimStart(s);
    if t == [] {
      TrimWhite(q);
    } else {
      TrimEndPadded(t, q);
    }
  }

  /** A string that neither starts nor ends with white space is its own trimmed form. */
  lemma TrimUnpadded(s: string)
    requires s == [] || (!IsWhiteSpace(s[0]) && !IsWhiteSpace(s[|s| - 1]))
    ensures Trim(s) == s
  {
  }

  /** A string of white space trims to nothing. */
  lemma {:induction false} TrimWhite(s: string)
    requires AllWhite(s)
    ensures TrimStart(s) == [] && Trim(s) == []
  {
    if s != [] {
      TrimWhite(s[1..]);
    }
  }
}
