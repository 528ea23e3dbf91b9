/** The Ruby string operations the template registries apply to names, paths
    and URLs: `File.basename` on a POSIX path, `gsub(/\n$/, '')`, the decimal
    text of an integer (`"#{pos}"`) and unanchored substring matching. */
module RubyText {

  /** `path` with every trailing '/' dropped. */
  function DropTrailingSlashes(path: string): (r: string)
    ensures |r| <= |path| && r == path[..|r|]
    ensures r == [] || r[|r| - 1] != '/'
    ensures forall k :: |r| <= k < |path| ==> path[k] == '/'
  {
    if |path| > 0 && path[|path| - 1] == '/' then DropTrailingSlashes(path[..|path| - 1])
    else path
  }

  /** The text after the last '/' of `s` (all of `s` when it has none). */
  function LastSegment(s: string): (r: string)
    ensures '/' !in r
    ensures |r| <= |s| && r == s[|s| - |r|..]
    ensures |r| < |s| ==> s[|s| - |r| - 1] == '/'
    ensures s != [] && s[|s| - 1] != '/' ==> r != []
  {
    if |s| == 0 || s[|s| - 1] == '/' then []
    else LastSegment(s[..|s| - 1]) + [s[|s| - 1]]
  }

  /** `File.basename(path)`: trailing slashes are ignored, a path made only
      of slashes has basename "/", and otherwise the result is the last
      segment, which is never empty and holds no '/'. */
  function Basename(path: string): (r: string)
    ensures path == [] <==> r == []
    ensures '/' in r ==> r == "/"
  {
    if path == [] then []
    else
      var stem := DropTrailingSlashes(path);
      if stem == [] then "/"
      else LastSegment(stem)
  }

  /** Apart from "/", the basename is the last segment of the path once
      its trailing slashes are dropped, and it is never empty. */
  lemma BasenameIsLastSegment(path: string)
    requires path != [] && Basename(path) != "/"
    ensures Basename(path) == LastSegment(DropTrailingSlashes(path))
    ensures Basename(path) != []
  {
    var stem := DropTrailingSlashes(path);
    assert stem == [] ==> Basename(path) == "/";
  }

  /** The basename is "/" exactly for a path made only of slashes. */
  lemma BasenameSlash(path: string)
    ensures Basename(path) == "/" <==> path != [] && forall k :: 0 <= k < |path| ==> path[k] == '/'
  {
    if path != [] {
      var stem := DropTrailingSlashes(path);
      if stem != [] {
        assert path[|stem| - 1] == stem[|stem| - 1];
        assert Basename(path) != "/" by {
          var r := LastSegment(stem);
          assert '/' !in r;
          assert '/' in "/";
        }
      }
    }
  }

  /** A basename is its own basename. */
  lemma BasenameIdempotent(path: string)
    ensures Basename(Basename(path)) == Basename(path)
  {
    var b := Basename(path);
    if b != [] && b != "/" {
      assert DropTrailingSlashes(b) == b;
      LastSegmentOfPlain(b);
    }
  }

  /** A string without '/' is its own last segment. */
  lemma {:induction false} LastSegmentOfPlain(s: string)
    requires '/' !in s
    ensures LastSegment(s) == s
  {
    if s != [] {
      var init := s[..|s| - 1];
      assert '/' !in init by {
        forall k | 0 <= k < |init| ensures init[k] != '/' {
          assert init[k] == s[k];
        }
      }
      assert s[|s| - 1] != '/';
      assert LastSegment(s) == LastSegment(init) + [s[|s| - 1]];
      LastSegmentOfPlain(init);
      assert init + [s[|s| - 1]] == s;
    }
  }

  /** Joining a directory and a plain name with '/', with or without a
      trailing '/', gives back the name as basename: the file name that
      `remote_put` derives from a URL is its last path segment. */
  lemma BasenameOfJoin(dir: string, name: string, trailing: bool)
    requires name != [] && '/' !in name
    ensures Basename(dir + "/" + name + (if trailing then "/" else "")) == name
  {
    var p := dir + "/" + name + (if trailing then "/" else "");
    var q := dir + "/" + name;
    if trailing {
      assert p[..|p| - 1] == q;
    }
    assert DropTrailingSlashes(p) == q;
    LastSegmentOfJoin(dir + "/", name);
  }

  lemma {:induction false} LastSegmentOfJoin(prefix: string, name: string)
    requires |prefix| > 0 && prefix[|prefix| - 1] == '/' && '/' !in name
    ensures LastSegment(prefix + name) == name
  {
    if name == [] {
      assert prefix + name == prefix;
    } else {
      var s := prefix + name;
      assert s[..|s| - 1] == prefix + name[..|name| - 1];
      LastSegmentOfJoin(prefix, name[..|name| - 1]);
      assert name[..|name| - 1] + [name[|name| - 1]] == name;
    }
  }

  /** `s.gsub(/\n$/, '')`: a newline is removed when it ends a line, that
      is when it is the last character or is followed by another newline
      (Ruby's `$` matches before every newline and at the end). */
  function StripLineEnds(s: string): (r: string)
    ensures |r| <= |s|
    ensures forall c :: c in r ==> c in s
  {
    if s == [] then []
    else if s[0] == '\n' && (|s| == 1 || s[1] == '\n') then StripLineEnds(s[1..])
    else [s[0]] + StripLineEnds(s[1..])
  }

  /** On a line as `File.readlines` gives it (no newline inside, at most one
      at the end), the substitution removes exactly the trailing newline. */
  lemma {:induction false} StripLineEndsOfLine(u: string)
    requires '\n' !in u
    ensures StripLineEnds(u) == u
    ensures StripLineEnds(u + "\n") == u
  {
    if u == [] {
    } else {
      assert (u + "\n")[1..] == u[1..] + "\n";
      StripLineEndsOfLine(u[1..]);
      assert [u[0]] + u[1..] == u;
    }
  }

  function DigitChar(d: nat): (c: char)
    requires d < 10
    ensures '0' <= c <= '9'
  {
    "0123456789"[d]
  }

  function DigitValue(c: char): (d: nat)
    requires '0' <= c <= '9'
    ensures d < 10 && DigitChar(d) == c
  {
    if c == '0' then 0 else if c == '1' then 1 else if c == '2' then 2
    else if c == '3' then 3 else if c == '4' then 4 else if c == '5' then 5
    else if c == '6' then 6 else if c == '7' then 7 else if c == '8' then 8 else 9
  }

  predicate IsDigits(s: string)
  {
    s != [] && forall k :: 0 <= k < |s| ==> '0' <= s[k] <= '9'
  }

  /** The decimal text of a non-negative integer, as Ruby's string
      interpolation `"#{pos}"` writes it. */
  function Decimal(n: nat): (s: string)
    ensures IsDigits(s)
    ensures |s| > 1 ==> s[0] != '0'
  {
    if n < 10 then [DigitChar(n)] else Decimal(n / 10) + [DigitChar(n % 10)]
  }

  /** The value of a string of decimal digits (what the launcher hands back
      as a position when an item's `arg` is chosen). */
  function ParseDecimal(s: string): nat
    requires IsDigits(s)
  {
    if |s| == 1 then DigitValue(s[0])
    else 10 * ParseDecimal(s[..|s| - 1]) + DigitValue(s[|s| - 1])
  }

  /** The `arg` written for position `n` reads back as `n`. */
  lemma {:induction false} DecimalRoundTrip(n: nat)
    ensures ParseDecimal(Decimal(n)) == n
  {
    if n >= 10 {
      var s := Decimal(n);
      assert s[..|s| - 1] == Decimal(n / 10);
      DecimalRoundTrip(n / 10);
      DigitValueOfChar(n % 10);
    } else {
      DigitValueOfChar(n);
    }
  }

  lemma DigitValueOfChar(d: nat)
    requires d < 10
    ensures DigitValue(DigitChar(d)) == d
  {
    var c := "0123456789";
    assert c[0] == '0' && c[1] == '1' && c[2] == '2' && c[3] == '3' && c[4] == '4';
    assert c[5] == '5' && c[6] == '6' && c[7] == '7' && c[8] == '8' && c[9] == '9';
  }

  /** `pattern` occurs in `s` starting at position `k`. */
  predicate OccursAt(s: string, pattern: string, k: nat)
  {
    k + |pattern| <= |s| && s[k..k + |pattern|] == pattern
  }

  /** `s =~ /pattern/` for a regexp without anchors and metacharacters. */
  predicate Contains(s: string, pattern: string): (r: bool)
    ensures r ==> |pattern| <= |s|
    ensures pattern <= s ==> r
  {
    assert pattern <= s ==> OccursAt(s, pattern, 0);
    exists k: nat :: k <= |s| && OccursAt(s, pattern, k)
  }

  /** The match is unanchored: text before and after an occurrence does not
      stop the pattern from being found. */
  lemma ContainsInContext(before: string, s: string, after: string, pattern: string)
    requires Contains(s, pattern)
    ensures Contains(before + s + after, pattern)
  {
    var k: nat :| k <= |s| && OccursAt(s, pattern, k);
    var t := before + s + after;
    var j := |before| + k;
    assert t[j..j + |pattern|] == s[k..k + |pattern|];
    assert OccursAt(t, pattern, j);
  }
}
