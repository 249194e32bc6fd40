/**
 The Python `str` operations the dashboard relies on, over `string` (a sequence of Unicode
 scalar values, as Python's `str` is a sequence of code points):
 `strip()`, `sep.join(parts)`, `s.split(ch)`, `lower()` and `endswith`.
 */
module Text {

  /** Whitespace as `str.isspace` decides it for ASCII characters: space, \t, \n, \v, \f, \r and
      the four separators 0x1C-0x1F. */
  predicate IsSpace(c: char) {
    c == ' ' || c == '\t' || c == '\n' || c == '\r' || c == '\U{000B}' || c == '\U{000C}'
    || ('\U{001C}' <= c <= '\U{001F}')
  }

  /** Every character is whitespace (true of the empty string). */
  predicate IsBlank(s: string) {
    forall i :: 0 <= i < |s| ==> IsSpace(s[i])
  }

  /** Neither end is whitespace. */
  predicate Trimmed(s: string) {
    |s| == 0 || (!IsSpace(s[0]) && !IsSpace(s[|s| - 1]))
  }

  // ---------------------------------------------------------------------------
  // strip

  /** `s.lstrip()`: the suffix of `s` left after dropping leading whitespace. */
  function LStrip(s: string): (r: string)
    ensures |r| <= |s| && r == s[|s| - |r|..]
    ensures IsBlank(s[..|s| - |r|])
    ensures r == [] || !IsSpace(r[0])
    decreases |s|
  {
    if |s| > 0 && IsSpace(s[0]) then
      var r := LStrip(s[1..]);
      assert s[1..][|s| - 1 - |r|..] == s[|s| - |r|..];
      assert s[..|s| - |r|] == [s[0]] + s[1..][..|s| - 1 - |r|];
      r
    else
      assert s[..0] == [];
      s
  }

  /** `s.rstrip()`: the prefix of `s` left after dropping trailing whitespace. */
  function RStrip(s: string): (r: string)
    ensures |r| <= |s| && r == s[..|r|]
    ensures IsBlank(s[|r|..])
    ensures r == [] || !IsSpace(r[|r| - 1])
    decreases |s|
  {
    if |s| > 0 && IsSpace(s[|s| - 1]) then
      var t := s[..|s| - 1];
      var r := RStrip(t);
      assert s[..|r|] == t[..|r|];
      assert s[|r|..] == t[|r|..] + [s[|s| - 1]];
      r
    else
      assert s[|s|..] == [];
      s
  }

  /** `s.strip()`. */
  function Strip(s: string): (r: string)
    ensures Trimmed(r)
    ensures |r| <= |s|
  {
    RStrip(LStrip(s))
  }

  lemma {:induction false} LStripBlankPrefix(a: string, u: string)
    requires IsBlank(a)
    requires u == [] || !IsSpace(u[0])
    ensures LStrip(a + u) == u
    decreases |a|
  {
    if |a| > 0 {
      assert (a + u)[1..] == a[1..] + u;
      LStripBlankPrefix(a[1..], u);
    } else {
      assert a + u == u;
    }
  }

  lemma {:induction false} RStripBlankSuffix(u: string, b: string)
    requires IsBlank(b)
    requires u == [] || !IsSpace(u[|u| - 1])
    ensures RStrip(u + b) == u
    decreases |b|
  {
    if |b| > 0 {
      assert (u + b)[..|u + b| - 1] == u + b[..|b| - 1];
      RStripBlankSuffix(u, b[..|b| - 1]);
    } else {
      assert u + b == u;
    }
  }

  /** `strip()` is characterised by what it keeps: whatever the whitespace padding around a
      trimmed core, stripping returns exactly that core. */
  lemma StripUnique(a: string, t: string, b: string)
    requires IsBlank(a) && IsBlank(b) && Trimmed(t)
    ensures Strip(a + t + b) == t
  {
    if t == [] {
      assert a + t + b == (a + b) + [];
      assert IsBlank(a + b);
      LStripBlankPrefix(a + b, []);
    } else {
      assert a + t + b == a + (t + b);
      LStripBlankPrefix(a, t + b);
      RStripBlankSuffix(t, b);
    }
  }

  /** Stripping twice is stripping once. */
  lemma StripIdempotent(s: string)
    ensures Strip(Strip(s)) == Strip(s)
  {
    StripOfTrimmed(Strip(s));
  }

  /** Text with no surrounding whitespace is left as it is. */
  lemma StripOfTrimmed(t: string)
    requires Trimmed(t)
    ensures Strip(t) == t
  {
    assert [] + t + [] == t;
    StripUnique([], t, []);
  }

  /** `not s.strip()` holds exactly of the all-whitespace strings. */
  lemma StripEmptyIffBlank(s: string)
    ensures Strip(s) == [] <==> IsBlank(s)
  {
    var l := LStrip(s);
    if Strip(s) == [] {
      assert IsBlank(l[0..]);
      assert s[..|s|] == s;
    }
  }

  // ---------------------------------------------------------------------------
  // join

  /** `sep.join(parts)`. */
  function Join(sep: string, parts: seq<string>): (r: string)
    ensures |parts| > 0 ==> |r| == TotalLength(parts) + (|parts| - 1) * |sep|
    ensures |parts| == 0 ==> r == []
    decreases |parts|
  {
    if |parts| == 0 then []
    else if |parts| == 1 then parts[0]
    else parts[0] + sep + Join(sep, parts[1..])
  }

  /** The number of characters in all the parts together. */
  function TotalLength(parts: seq<string>): nat
    decreases |parts|
  {
    if |parts| == 0 then 0 else |parts[0]| + TotalLength(parts[1..])
  }

  /** Joining with a whitespace separator gives an all-whitespace string exactly when every
      part is all whitespace. */
  lemma {:induction false} JoinBlank(sep: string, parts: seq<string>)
    requires IsBlank(sep)
    ensures IsBlank(Join(sep, parts)) <==> forall i :: 0 <= i < |parts| ==> IsBlank(parts[i])
    decreases |parts|
  {
    if |parts| >= 2 {
      var rest := Join(sep, parts[1..]);
      JoinBlank(sep, parts[1..]);
      var whole := parts[0] + sep + rest;
      assert Join(sep, parts) == whole;
      if IsBlank(whole) {
        assert IsBlank(parts[0]) by {
          forall i | 0 <= i < |parts[0]| ensures IsSpace(parts[0][i]) {
            assert whole[i] == parts[0][i];
          }
        }
        assert IsBlank(rest) by {
          forall i | 0 <= i < |rest| ensures IsSpace(rest[i]) {
            assert whole[|parts[0]| + |sep| + i] == rest[i];
          }
        }
        forall i | 0 <= i < |parts| ensures IsBlank(parts[i]) {
          if i > 0 {
            assert parts[i] == parts[1..][i - 1];
          }
        }
      }
      if forall i :: 0 <= i < |parts| ==> IsBlank(parts[i]) {
        assert forall i :: 0 <= i < |parts[1..]| ==> IsBlank(parts[1..][i]) by {
          forall i | 0 <= i < |parts[1..]| ensures IsBlank(parts[1..][i]) {
            assert parts[1..][i] == parts[i + 1];
          }
        }
        assert IsBlank(parts[0]);
        forall i | 0 <= i < |whole| ensures IsSpace(whole[i]) {
          if i < |parts[0]| {
            assert whole[i] == parts[0][i];
          } else if i < |parts[0]| + |sep| {
            assert whole[i] == sep[i - |parts[0]|];
          } else {
            assert whole[i] == rest[i - |parts[0]| - |sep|];
          }
        }
      }
    }
  }

  // ---------------------------------------------------------------------------
  // split on one character

  /** Number of occurrences of `c` in `s`. */
  function Count(s: string, c: char): nat
    decreases |s|
  {
    if |s| == 0 then 0 else (if s[0] == c then 1 else 0) + Count(s[1..], c)
  }

  /** `s.split(d)` for a one-character separator: the pieces between occurrences of `d`,
      empty pieces included, so there is always one more piece than separators. */
  function Split(s: string, d: char): (r: seq<string>)
    ensures |r| == Count(s, d) + 1
    ensures forall i :: 0 <= i < |r| ==> d !in r[i]
    decreases |s|
  {
    if |s| == 0 then [[]]
    else
      var rest := Split(s[1..], d);
      if s[0] == d then [[]] + rest else [[s[0]] + rest[0]] + rest[1..]
  }

  /** Rejoining the pieces with the separator gives back the input. */
  lemma {:induction false} SplitThenJoin(s: string, d: char)
    ensures Join([d], Split(s, d)) == s
    decreases |s|
  {
    if |s| > 0 {
      var rest := Split(s[1..], d);
      SplitThenJoin(s[1..], d);
      assert Join([d], rest) == s[1..];
      if s[0] == d {
        assert Join([d], [[]] + rest) == [] + [d] + Join([d], ([[]] + rest)[1..]);
        assert ([[]] + rest)[1..] == rest;
        assert s == [s[0]] + s[1..];
      } else {
        var parts := [[s[0]] + rest[0]] + rest[1..];
        if |rest| == 1 {
          assert Join([d], parts) == [s[0]] + rest[0];
          assert s == [s[0]] + s[1..];
        } else {
          assert parts[1..] == rest[1..];
          assert Join([d], parts) == [s[0]] + rest[0] + [d] + Join([d], rest[1..]);
          assert Join([d], rest) == rest[0] + [d] + Join([d], rest[1..]);
          assert s == [s[0]] + s[1..];
        }
      }
    }
  }

  /** A separator-free prefix becomes the head of the first piece. */
  lemma {:induction false} SplitSeparatorFreePrefix(a: string, t: string, d: char)
    requires d !in a
    ensures Split(a + t, d) == [a + Split(t, d)[0]] + Split(t, d)[1..]
    decreases |a|
  {
    if |a| == 0 {
      assert a + t == t;
      var st := Split(t, d);
      assert a + st[0] == st[0];
      assert [st[0]] + st[1..] == st;
    } else {
      var at := a + t;
      var st := Split(t, d);
      assert at[0] == a[0];
      assert at[1..] == a[1..] + t;
      SplitSeparatorFreePrefix(a[1..], t, d);
      var r := Split(at[1..], d);
      assert r[0] == a[1..] + st[0];
      assert r[1..] == st[1..];
      assert Split(at, d) == [[a[0]] + r[0]] + r[1..];
      assert [a[0]] + (a[1..] + st[0]) == a + st[0];
    }
  }

  /** Splitting the join of separator-free pieces gives back the pieces. */
  lemma {:induction false} JoinThenSplit(parts: seq<string>, d: char)
    requires |parts| >= 1
    requires forall i :: 0 <= i < |parts| ==> d !in parts[i]
    ensures Split(Join([d], parts), d) == parts
    decreases |parts|
  {
    if |parts| == 1 {
      SplitSeparatorFreePrefix(parts[0], [], d);
      assert parts[0] + [] == parts[0];
    } else {
      var rest := Join([d], parts[1..]);
      JoinThenSplit(parts[1..], d);
      assert Join([d], parts) == parts[0] + ([d] + rest);
      SplitSeparatorFreePrefix(parts[0], [d] + rest, d);
      assert ([d] + rest)[0] == d;
      assert ([d] + rest)[1..] == rest;
      var sr := Split([d] + rest, d);
      assert sr == [[]] + parts[1..];
      assert sr[0] == [] && sr[1..] == parts[1..];
      assert parts[0] + sr[0] == parts[0];
      assert [parts[0]] + parts[1..] == parts;
    }
  }

  // ---------------------------------------------------------------------------
  // lower / endswith

  /** ASCII lowering of one character. */
  function LowerChar(c: char): char {
    if 'A' <= c <= 'Z' then (c as int + 32) as char else c
  }

  /** `s.lower()`, restricted to ASCII letters. */
  function Lower(s: string): (r: string)
    ensures |r| == |s|
    ensures forall i :: 0 <= i < |s| ==> r[i] == LowerChar(s[i])
    ensures forall i :: 0 <= i < |r| ==> !('A' <= r[i] <= 'Z')
    ensures forall i :: 0 <= i < |s| ==> (r[i] == s[i] <==> !('A' <= s[i] <= 'Z'))
  {
    seq(|s|, i requires 0 <= i < |s| => LowerChar(s[i]))
  }

  /** `s.endswith(suffix)`. */
  predicate EndsWith(s: string, suffix: string) {
    |suffix| <= |s| && s[|s| - |suffix|..] == suffix
  }

  /** `s.endswith(suffix)` holds exactly when `s` is some text followed by `suffix`. */
  lemma EndsWithConcat(s: string, suffix: string)
    ensures EndsWith(s, suffix) <==> exists a :: s == a + suffix
  {
    if EndsWith(s, suffix) {
      var a := s[..|s| - |suffix|];
      assert s == a + suffix;
    }
    if exists a :: s == a + suffix {
      var a :| s == a + suffix;
      assert s[|s| - |suffix|..] == suffix;
    }
  }
}
