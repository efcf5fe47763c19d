/**
 * A left-to-right scanner equivalent to Python's `re.sub(o + '(.*?)' + c, f, s)`
 * for two-character delimiters `o` and `c`: at each position it tries to
 * match the opening delimiter followed by the shortest run of non-newline
 * characters that is followed by the closing delimiter (`.` does not match
 * a newline); a match is replaced by `f` of the enclosed text and scanning
 * resumes after the closing delimiter, otherwise one character is copied.
 */
module Scanner {
  import opened PyStr

  datatype Option<T> = None | Some(value: T)

  /** A two-character delimiter such as `**` or `((`. */
  datatype Delim = Delim(first: char, second: char)
  {
    function Text(): string
    {
      [first, second]
    }
  }

  /** Delimiter `d` occurs in `s` starting at index `j`. */
  predicate OccursAt(s: string, d: Delim, j: int)
  {
    0 <= j && j + 2 <= |s| && s[j] == d.first && s[j + 1] == d.second
  }

  /** `s[k..j]` holds no newline, so `.*` can span it. */
  predicate NoNewline(s: string, k: int, j: int)
    requires 0 <= k <= j <= |s|
  {
    forall n :: k <= n < j ==> s[n] != '\n'
  }

  /** The regex `o(.*)c` matches `s` from index `i` with its closing delimiter at `j`
      (not necessarily the shortest such match). */
  predicate Matches(s: string, o: Delim, c: Delim, i: int, j: int)
  {
    && OccursAt(s, o, i)
    && i + 2 <= j
    && OccursAt(s, c, j)
    && NoNewline(s, i + 2, j)
  }

  /** The first index `j >= k` where `c` occurs, provided no newline comes first. */
  function FindClose(s: string, c: Delim, k: nat): (r: Option<nat>)
    ensures r.Some? ==>
              && k <= r.value
              && OccursAt(s, c, r.value)
              && NoNewline(s, k, r.value)
              && forall j :: k <= j < r.value ==> !OccursAt(s, c, j)
    ensures r.None? ==>
              forall j :: k <= j && OccursAt(s, c, j) ==> !NoNewline(s, k, j)
    decreases |s| - k
  {
    if k + 2 > |s| then None
    else if OccursAt(s, c, k) then Some(k)
    else if s[k] == '\n' then None
    else FindClose(s, c, k + 1)
  }

  /** One scanning step on a non-empty `s`: the text emitted and the number of
      characters consumed. A match at 0 is replaced by `f` of the enclosed
      text; otherwise the first character is copied. */
  function Step(s: string, o: Delim, c: Delim, f: string -> string): (t: (string, nat))
    requires |s| > 0
    ensures 1 <= t.1 <= |s|
  {
    if OccursAt(s, o, 0) then
      match FindClose(s, c, 2)
      case Some(j) => (f(s[2..j]), j + 2)
      case None => ([s[0]], 1)
    else ([s[0]], 1)
  }

  /** `re.sub` of the non-greedy pattern `o(.*?)c` by `f` over all of `s`. */
  function Rewrite(s: string, o: Delim, c: Delim, f: string -> string): (r: string)
    decreases |s|
  {
    if |s| == 0 then ""
    else
      var t := Step(s, o, c, f);
      t.0 + Rewrite(s[t.1..], o, c, f)
  }

  /** Dropping the first `d` characters shifts every match `d` places to the left. */
  lemma MatchesShift(s: string, o: Delim, c: Delim, d: nat, i: int, j: int)
    requires d <= |s| && 0 <= i
    ensures Matches(s[d..], o, c, i, j) <==> Matches(s, o, c, i + d, j + d)
  {
    var t := s[d..];
    if i + 2 <= j && j + 2 <= |t| {
      assert NoNewline(t, i + 2, j) <==> NoNewline(s, i + d + 2, j + d) by {
        assert forall n :: i + 2 <= n < j ==> t[n] == s[n + d];
      }
    }
  }

  /** The opening delimiter at 0 either finds its closing one, which makes a
      match, or there is no match at 0 at all. */
  lemma MatchAtStart(s: string, o: Delim, c: Delim)
    requires OccursAt(s, o, 0)
    ensures FindClose(s, c, 2).Some? ==> Matches(s, o, c, 0, FindClose(s, c, 2).value)
    ensures FindClose(s, c, 2).None? ==> forall j :: !Matches(s, o, c, 0, j)
  {
  }

  /** Where no match starts at 0, the first character is copied and the rest
      is scanned. */
  lemma RewriteSkip(s: string, o: Delim, c: Delim, f: string -> string)
    requires |s| > 0
    requires forall j :: !Matches(s, o, c, 0, j)
    ensures Rewrite(s, o, c, f) == [s[0]] + Rewrite(s[1..], o, c, f)
  {
    if OccursAt(s, o, 0) {
      MatchAtStart(s, o, c);
    }
    assert Step(s, o, c, f) == ([s[0]], 1);
  }

  /** Where the pattern matches nowhere, `re.sub` returns its input unchanged:
      unmatched delimiters are left as literal text. */
  lemma {:induction false} RewriteNoMatch(s: string, o: Delim, c: Delim, f: string -> string)
    requires forall i, j :: !Matches(s, o, c, i, j)
    ensures Rewrite(s, o, c, f) == s
    decreases |s|
  {
    if |s| > 0 {
      RewriteSkip(s, o, c, f);
      forall i, j | 0 <= i ensures !Matches(s[1..], o, c, i, j) {
        MatchesShift(s, o, c, 1, i, j);
      }
      RewriteNoMatch(s[1..], o, c, f);
      assert s == [s[0]] + s[1..];
    }
  }

  /** A shortest match at the very start is replaced, and scanning resumes after it. */
  lemma RewriteMatchAtStart(s: string, o: Delim, c: Delim, f: string -> string, e: int)
    requires Matches(s, o, c, 0, e)
    requires forall j :: j < e ==> !Matches(s, o, c, 0, j)
    ensures Rewrite(s, o, c, f) == f(s[2..e]) + Rewrite(s[e + 2..], o, c, f)
  {
    MatchAtStart(s, o, c);
    var r := FindClose(s, c, 2);
    assert r.Some?;
    assert Matches(s, o, c, 0, r.value);
    assert r.value == e;
    assert Step(s, o, c, f) == (f(s[2..e]), e + 2);
  }

  /** Dropping the first character keeps "no match starts before `i`",
      one place to the left. */
  lemma NoEarlierMatchShift(s: string, o: Delim, c: Delim, i: nat)
    requires 0 < i <= |s|
    requires forall i', j :: i' < i ==> !Matches(s, o, c, i', j)
    ensures forall i', j :: i' < i - 1 ==> !Matches(s[1..], o, c, i', j)
  {
    forall i', j | i' < i - 1 ensures !Matches(s[1..], o, c, i', j) {
      if 0 <= i' {
        MatchesShift(s, o, c, 1, i', j);
        assert !Matches(s, o, c, i' + 1, j + 1);
      }
    }
  }

  /** Text before the first position where a match starts is copied unchanged. */
  lemma {:induction false} RewriteCopyPrefix(s: string, o: Delim, c: Delim, f: string -> string, i: nat)
    requires i <= |s|
    requires forall i', j :: i' < i ==> !Matches(s, o, c, i', j)
    ensures Rewrite(s, o, c, f) == s[..i] + Rewrite(s[i..], o, c, f)
    decreases i
  {
    if i > 0 {
      RewriteSkip(s, o, c, f);
      var s' := s[1..];
      NoEarlierMatchShift(s, o, c, i);
      RewriteCopyPrefix(s', o, c, f, i - 1);
      var u, v := s'[i - 1..], s[i..];
      assert u == v;
      var a, b := s'[..i - 1], Rewrite(v, o, c, f);
      assert Rewrite(u, o, c, f) == b;
      assert Rewrite(s', o, c, f) == a + b;
      var h := [s[0]];
      assert s[..i] == h + a;
      var r := Rewrite(s, o, c, f);
      assert r == h + (a + b);
      ConcatAssoc(h, a, b);
      assert r == (h + a) + b;
    }
  }

  /** A shortest match from `i` is, in `s[i..]`, a shortest match from 0. */
  lemma ShortestMatchShift(s: string, o: Delim, c: Delim, i: nat, e: int)
    requires i <= |s|
    requires Matches(s, o, c, i, e)
    requires forall j :: j < e ==> !Matches(s, o, c, i, j)
    ensures Matches(s[i..], o, c, 0, e - i)
    ensures forall j :: j < e - i ==> !Matches(s[i..], o, c, 0, j)
  {
    MatchesShift(s, o, c, i, 0, e - i);
    forall j | j < e - i ensures !Matches(s[i..], o, c, 0, j) {
      MatchesShift(s, o, c, i, 0, j);
      assert !Matches(s, o, c, i, j + i);
    }
  }

  /** A shortest match from `i` is replaced when scanning resumes at `i`. */
  lemma RewriteMatchAt(s: string, o: Delim, c: Delim, f: string -> string, i: nat, e: int)
    requires i <= |s|
    requires Matches(s, o, c, i, e)
    requires forall j :: j < e ==> !Matches(s, o, c, i, j)
    ensures Rewrite(s[i..], o, c, f) == f(s[i + 2..e]) + Rewrite(s[e + 2..], o, c, f)
  {
    var s' := s[i..];
    ShortestMatchShift(s, o, c, i, e);
    RewriteMatchAtStart(s', o, c, f, e - i);
    var x, x' := s[i + 2..e], s'[2..e - i];
    var t, t' := s[e + 2..], s'[e - i + 2..];
    assert x' == x;
    assert t' == t;
  }

  /** Leftmost, then shortest: if the first match starts at `i` and its
      shortest closing delimiter is at `e`, the text before `i` is copied,
      the enclosed text goes through `f`, and scanning resumes after the
      closing delimiter. */
  lemma RewriteFirstMatch(s: string, o: Delim, c: Delim, f: string -> string, i: nat, e: int)
    requires Matches(s, o, c, i, e)
    requires forall i', j :: i' < i ==> !Matches(s, o, c, i', j)
    requires forall j :: j < e ==> !Matches(s, o, c, i, j)
    ensures Rewrite(s, o, c, f) == s[..i] + f(s[i + 2..e]) + Rewrite(s[e + 2..], o, c, f)
  {
    RewriteCopyPrefix(s, o, c, f, i);
    RewriteMatchAt(s, o, c, f, i, e);
    ConcatAssoc(s[..i], f(s[i + 2..e]), Rewrite(s[e + 2..], o, c, f));
  }

  /** A string that opens with `o` and has `c` at `j` is `o`, the text between,
      `c`, and the rest. */
  lemma Reassemble(s: string, o: Delim, c: Delim, j: int)
    requires OccursAt(s, o, 0) && 2 <= j && OccursAt(s, c, j)
    ensures s == o.Text() + s[2..j] + c.Text() + s[j + 2..]
  {
    var t := o.Text() + s[2..j] + c.Text() + s[j + 2..];
    assert |t| == |s|;
    forall k | 0 <= k < |s| ensures t[k] == s[k] {
      if k < 2 {
      } else if k < j {
        assert t[k] == s[2..j][k - 2];
      } else if k < j + 2 {
      } else {
        assert t[k] == s[j + 2..][k - j - 2];
      }
    }
  }

  /** Putting the delimiters back around every replaced span restores the
      input: the scanner loses no text outside the spans it hands to `f`. */
  lemma {:induction false} RewriteRewrapWith(s: string, o: Delim, c: Delim, f: string -> string)
    requires forall x :: f(x) == o.Text() + x + c.Text()
    ensures Rewrite(s, o, c, f) == s
    decreases |s|
  {
    if |s| > 0 {
      var t := Step(s, o, c, f);
      var rest := s[t.1..];
      RewriteRewrapWith(rest, o, c, f);
      assert Rewrite(s, o, c, f) == t.0 + rest;
      if OccursAt(s, o, 0) && FindClose(s, c, 2).Some? {
        var j := FindClose(s, c, 2).value;
        assert t.0 == o.Text() + s[2..j] + c.Text();
        Reassemble(s, o, c, j);
      } else {
        assert t.0 == [s[0]];
        assert s == [s[0]] + s[1..];
      }
    }
  }

  lemma RewriteRewrap(s: string, o: Delim, c: Delim)
    ensures Rewrite(s, o, c, x => o.Text() + x + c.Text()) == s
  {
    RewriteRewrapWith(s, o, c, x => o.Text() + x + c.Text());
  }

  /** A span `o x c` at the start, where `x` holds no newline and no
      character that could start `c`, is replaced by `f(x)`, and scanning
      resumes with what follows it. */
  lemma RewriteSpan(o: Delim, c: Delim, f: string -> string, x: string, rest: string)
    requires forall n :: 0 <= n < |x| ==> x[n] != c.first && x[n] != '\n'
    ensures Rewrite(o.Text() + x + c.Text() + rest, o, c, f) == f(x) + Rewrite(rest, o, c, f)
  {
    var s := o.Text() + x + c.Text() + rest;
    var e := |x| + 2;
    assert forall n :: 2 <= n < e ==> s[n] == x[n - 2];
    assert s[e] == c.first && s[e + 1] == c.second;
    assert Matches(s, o, c, 0, e);
    assert forall j :: j < e ==> !Matches(s, o, c, 0, j);
    RewriteMatchAtStart(s, o, c, f, e);
    assert s[2..e] == x;
    assert s[e + 2..] == rest;
  }

  /** Text in which the opening delimiter's first character never occurs is
      copied as it is, and scanning goes on after it. */
  lemma RewriteLiteralPrefix(p: string, rest: string, o: Delim, c: Delim, f: string -> string)
    requires forall n :: 0 <= n < |p| ==> p[n] != o.first
    ensures Rewrite(p + rest, o, c, f) == p + Rewrite(rest, o, c, f)
  {
    var s := p + rest;
    assert forall n :: 0 <= n < |p| ==> s[n] == p[n];
    RewriteCopyPrefix(s, o, c, f, |p|);
    assert s[..|p|] == p;
    assert s[|p|..] == rest;
  }
}
