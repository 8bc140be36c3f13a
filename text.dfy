/** The few Python `str` operations the script relies on, on `seq<char>`:
    `in` (substring test), `endswith`, `split` with an explicit separator,
    and `strip()` with no argument. */
module Text {

  /** Python's `str.isspace` for one character: the ASCII controls
      TAB..CR and FS..US, the space, and the Unicode separators that Python
      treats as whitespace. */
  predicate IsSpace(c: char) {
    c == ' ' || ('\t' <= c <= '\r') || ('\U{1C}' <= c <= '\U{1F}')
    || c == '\U{85}' || c == '\U{A0}' || c == '\U{1680}'
    || ('\U{2000}' <= c <= '\U{200A}') || c == '\U{2028}' || c == '\U{2029}'
    || c == '\U{202F}' || c == '\U{205F}' || c == '\U{3000}'
  }

  predicate AllSpace(s: string) {
    forall k :: 0 <= k < |s| ==> IsSpace(s[k])
  }

  predicate StartsWith(s: string, p: string) {
    |p| <= |s| && s[..|p|] == p
  }

  /** Python's `s.endswith(p)`. */
  predicate EndsWith(s: string, p: string) {
    |p| <= |s| && s[|s| - |p|..] == p
  }

  /** `sub` occurs in `s` starting at index `i`. */
  predicate OccursAt(s: string, sub: string, i: int) {
    0 <= i <= |s| - |sub| && s[i..i + |sub|] == sub
  }

  /** Python's `sub in s`: `sub` occurs somewhere in `s` as a contiguous
      run of characters (the empty string occurs everywhere). */
  predicate Contains(s: string, sub: string) {
    exists i :: 0 <= i <= |s| - |sub| && OccursAt(s, sub, i)
  }

  lemma ContainsPrefix(s: string, p: string)
    requires StartsWith(s, p)
    ensures Contains(s, p)
  {
    assert OccursAt(s, p, 0);
  }

  /** A substring of a substring is a substring. */
  lemma ContainsTransitive(a: string, b: string, c: string)
    requires Contains(a, b) && Contains(b, c)
    ensures Contains(a, c)
  {
    var i :| 0 <= i <= |a| - |b| && OccursAt(a, b, i);
    var j :| 0 <= j <= |b| - |c| && OccursAt(b, c, j);
    assert a[i..i + |b|] == b;
    forall k | 0 <= k < |c| ensures a[i + j..i + j + |c|][k] == c[k] {
      assert c[k] == b[j + k] == a[i + j + k];
    }
    assert OccursAt(a, c, i + j);
  }

  /** An occurrence in a non-empty text is at its front or in its tail. */
  lemma ContainsCons(s: string, sub: string)
    requires s != []
    ensures Contains(s, sub) <==> StartsWith(s, sub) || Contains(s[1..], sub)
  {
    if Contains(s, sub) {
      var i :| 0 <= i <= |s| - |sub| && OccursAt(s, sub, i);
      if i > 0 {
        forall k | 0 <= k < |sub| ensures s[1..][i - 1..i - 1 + |sub|][k] == sub[k] {
          assert sub[k] == s[i..i + |sub|][k];
        }
        assert OccursAt(s[1..], sub, i - 1);
      }
    }
    if StartsWith(s, sub) {
      assert OccursAt(s, sub, 0);
    }
    if Contains(s[1..], sub) {
      var i :| 0 <= i <= |s[1..]| - |sub| && OccursAt(s[1..], sub, i);
      forall k | 0 <= k < |sub| ensures s[i + 1..i + 1 + |sub|][k] == sub[k] {
        assert sub[k] == s[1..][i..i + |sub|][k];
      }
      assert OccursAt(s, sub, i + 1);
    }
  }

  /** A one-character needle occurs exactly when the character does. */
  lemma ContainsChar(s: string, c: char)
    ensures Contains(s, [c]) <==> c in s
  {
    if c in s {
      var k :| 0 <= k < |s| && s[k] == c;
      assert OccursAt(s, [c], k);
    }
    if Contains(s, [c]) {
      var i :| 0 <= i <= |s| - 1 && OccursAt(s, [c], i);
      assert s[i..i + 1][0] == c;
    }
  }

  /** Python's `s.split(sep)` for a non-empty `sep`: scanning left to right,
      every leftmost occurrence of `sep` ends the current piece, and the
      scan resumes after it, so occurrences never overlap. The first case
      keeps the rest of `s` as the last piece once no room is left for `sep`. */
  function Split(s: string, sep: string): (parts: seq<string>)
    requires sep != []
    ensures |parts| >= 1
    decreases |s|
  {
    if |s| < |sep| then [s]
    else if s[..|sep|] == sep then [""] + Split(s[|sep|..], sep)
    else
      var rest := Split(s[1..], sep);
      [[s[0]] + rest[0]] + rest[1..]
  }

  /** Python's `sep.join(parts)`. */
  function Join(parts: seq<string>, sep: string): string
    requires |parts| >= 1
    decreases |parts|
  {
    if |parts| == 1 then parts[0] else parts[0] + sep + Join(parts[1..], sep)
  }

  lemma {:induction false} JoinConsHead(a: string, x: string, rest: seq<string>, sep: string)
    ensures Join([a + x] + rest, sep) == a + Join([x] + rest, sep)
  {
    if rest != [] {
      assert ([a + x] + rest)[1..] == rest;
      assert ([x] + rest)[1..] == rest;
    }
  }

  /** Joining the pieces with the separator gives back the original text. */
  lemma {:induction false} SplitJoin(s: string, sep: string)
    requires sep != []
    ensures Join(Split(s, sep), sep) == s
    decreases |s|
  {
    if |s| < |sep| {
    } else if s[..|sep|] == sep {
      var rest := Split(s[|sep|..], sep);
      SplitJoin(s[|sep|..], sep);
      assert Split(s, sep) == [""] + rest;
      assert ([""] + rest)[1..] == rest;
      assert Join(Split(s, sep), sep) == "" + sep + Join(rest, sep);
      assert s == sep + s[|sep|..];
    } else {
      var rest := Split(s[1..], sep);
      SplitJoin(s[1..], sep);
      assert Split(s, sep) == [[s[0]] + rest[0]] + rest[1..];
      JoinConsHead([s[0]], rest[0], rest[1..], sep);
      assert [rest[0]] + rest[1..] == rest;
      assert s == [s[0]] + s[1..];
    }
  }

  /** The first piece is a prefix of the text. */
  lemma {:induction false} SplitHeadPrefix(s: string, sep: string)
    requires sep != []
    ensures StartsWith(s, Split(s, sep)[0])
    decreases |s|
  {
    if |s| >= |sep| && s[..|sep|] != sep {
      SplitHeadPrefix(s[1..], sep);
      var r0 := Split(s[1..], sep)[0];
      assert s[..|r0| + 1] == [s[0]] + s[1..][..|r0|];
    }
  }

  /** No piece contains the separator. */
  lemma {:induction false} SplitPiecesFree(s: string, sep: string)
    requires sep != []
    ensures forall p :: p in Split(s, sep) ==> !Contains(p, sep)
    decreases |s|
  {
    if |s| < |sep| {
      assert forall i :: !OccursAt(s, sep, i);
    } else if s[..|sep|] == sep {
      SplitPiecesFree(s[|sep|..], sep);
      assert forall i :: !OccursAt("", sep, i);
    } else {
      var rest := Split(s[1..], sep);
      SplitPiecesFree(s[1..], sep);
      SplitHeadPrefix(s[1..], sep);
      var h := [s[0]] + rest[0];
      assert rest[0] in rest;
      assert h[1..] == rest[0];
      assert !StartsWith(h, sep) by {
        if |sep| <= |h| { assert h[..|sep|] == s[..|sep|]; }
      }
      ContainsCons(h, sep);
      forall p | p in Split(s, sep) ensures !Contains(p, sep) {
        if p != h {
          assert p in rest[1..];
        }
      }
    }
  }

  /** Every piece occurs in the text. */
  lemma {:induction false} SplitPiecesOccur(s: string, sep: string)
    requires sep != []
    ensures forall p :: p in Split(s, sep) ==> Contains(s, p)
    decreases |s|
  {
    if |s| < |sep| {
      assert OccursAt(s, s, 0);
    } else if s[..|sep|] == sep {
      var t := s[|sep|..];
      SplitPiecesOccur(t, sep);
      forall p | p in Split(s, sep) ensures Contains(s, p) {
        if p == "" {
          assert OccursAt(s, p, 0);
        } else {
          assert p in Split(t, sep);
          assert OccursAt(s, t, |sep|);
          ContainsTransitive(s, t, p);
        }
      }
    } else {
      SplitPiecesOccur(s[1..], sep);
      SplitHeadPrefix(s, sep);
      ContainsPrefix(s, Split(s, sep)[0]);
      var rest := Split(s[1..], sep);
      forall p | p in Split(s, sep) ensures Contains(s, p) {
        if p != Split(s, sep)[0] {
          assert p in rest;
          ContainsCons(s, p);
        }
      }
    }
  }

  /** A text without the separator is a single piece. */
  lemma {:induction false} SplitWithout(s: string, sep: string)
    requires sep != [] && !Contains(s, sep)
    ensures Split(s, sep) == [s]
    decreases |s|
  {
    if |s| >= |sep| {
      if s[..|sep|] == sep {
        ContainsPrefix(s, sep);
      }
      ContainsCons(s, sep);
      SplitWithout(s[1..], sep);
      assert [s[0]] + s[1..] == s;
    }
  }

  /** A text with the separator splits into at least two pieces. */
  lemma {:induction false} SplitWith(s: string, sep: string)
    requires sep != [] && Contains(s, sep)
    ensures |Split(s, sep)| >= 2
    decreases |s|
  {
    if s[..|sep|] != sep {
      ContainsCons(s, sep);
      SplitWith(s[1..], sep);
    }
  }

  /** The last piece closes the text, preceded by the separator when
      there is more than one piece. */
  lemma {:induction false} JoinLast(parts: seq<string>, sep: string)
    requires |parts| >= 2
    ensures Join(parts, sep) == Join(parts[..|parts| - 1], sep) + sep + parts[|parts| - 1]
    decreases |parts|
  {
    if |parts| > 2 {
      JoinLast(parts[1..], sep);
      assert parts[1..][..|parts| - 2] == parts[..|parts| - 1][1..];
    }
  }

  /** No occurrence of `sep` in `x + sep` begins inside `x` and runs into
      the appended separator. */
  predicate NoStraddle(x: string, sep: string) {
    forall i :: 0 <= i < |x| && |x| - |sep| < i ==> !OccursAt(x + sep, sep, i)
  }

  lemma OccursAtDrop(s: string, sub: string, k: nat, i: nat)
    requires k <= |s|
    ensures OccursAt(s[k..], sub, i) <==> OccursAt(s, sub, i + k)
  {
    if i + |sub| <= |s[k..]| {
      assert s[k..][i..i + |sub|] == s[i + k..i + k + |sub|];
    }
  }

  lemma NoStraddleDrop(x: string, sep: string, k: nat)
    requires NoStraddle(x, sep) && k <= |x|
    ensures NoStraddle(x[k..], sep)
  {
    forall i | 0 <= i < |x[k..]| && |x[k..]| - |sep| < i
      ensures !OccursAt(x[k..] + sep, sep, i)
    {
      assert x[k..] + sep == (x + sep)[k..];
      OccursAtDrop(x + sep, sep, k, i);
    }
  }

  /** A short left part that does not straddle cannot start with `sep`. */
  lemma NoStraddleShort(x: string, sep: string, y: string)
    requires NoStraddle(x, sep) && 0 < |x| < |sep|
    ensures (x + sep + y)[..|sep|] != sep
  {
    assert (x + sep + y)[..|sep|] == (x + sep)[0..0 + |sep|];
    assert !OccursAt(x + sep, sep, 0);
  }

  /** Splitting around a separator that does not straddle its left part
      splits each side on its own. */
  lemma {:induction false} SplitAround(x: string, sep: string, y: string)
    requires sep != [] && NoStraddle(x, sep)
    ensures Split(x + sep + y, sep) == Split(x, sep) + Split(y, sep)
    decreases |x|
  {
    var s := x + sep + y;
    if x == [] {
      assert s[..|sep|] == sep && s[|sep|..] == y;
    } else if s[..|sep|] == sep {
      if |x| < |sep| {
        NoStraddleShort(x, sep, y);
      }
      SplitAroundMatch(x, sep, y);
    } else {
      SplitAroundMiss(x, sep, y);
    }
  }

  lemma {:induction false} SplitAroundMatch(x: string, sep: string, y: string)
    requires sep != [] && NoStraddle(x, sep) && |x| >= |sep|
    requires (x + sep + y)[..|sep|] == sep
    ensures Split(x + sep + y, sep) == Split(x, sep) + Split(y, sep)
    decreases |x|, 0
  {
    var s := x + sep + y;
    var x' := x[|sep|..];
    assert x[..|sep|] == s[..|sep|];
    assert s[|sep|..] == x' + sep + y;
    NoStraddleDrop(x, sep, |sep|);
    SplitAround(x', sep, y);
  }

  lemma {:induction false} SplitAroundMiss(x: string, sep: string, y: string)
    requires sep != [] && NoStraddle(x, sep) && x != []
    requires (x + sep + y)[..|sep|] != sep
    ensures Split(x + sep + y, sep) == Split(x, sep) + Split(y, sep)
    decreases |x|, 0
  {
    var s := x + sep + y;
    var x' := x[1..];
    assert s[1..] == x' + sep + y;
    NoStraddleDrop(x, sep, 1);
    SplitAround(x', sep, y);
    SplitConsMiss(x, sep, Split(y, sep));
  }

  /** The step of `SplitAroundMiss` once the tail is split: `x`'s first
      character joins the first piece of `x[1..]`. */
  lemma SplitConsMiss(x: string, sep: string, ys: seq<string>)
    requires sep != [] && x != []
    requires |x| >= |sep| ==> x[..|sep|] != sep
    ensures Split(x, sep) + ys == [[x[0]] + (Split(x[1..], sep) + ys)[0]] + (Split(x[1..], sep) + ys)[1..]
  {
    SplitCons(x, sep);
    ConsFirstAppend([x[0]], Split(x[1..], sep), ys);
  }

  /** Growing the first of a non-empty list of pieces commutes with
      appending more pieces. */
  lemma ConsFirstAppend(h: string, ps: seq<string>, ys: seq<string>)
    requires ps != []
    ensures [h + ps[0]] + ps[1..] + ys == [h + (ps + ys)[0]] + (ps + ys)[1..]
  {
    assert (ps + ys)[0] == ps[0];
    assert (ps + ys)[1..] == ps[1..] + ys;
  }


  /** Unless `x` starts with `sep`, its first character joins the first
      piece of `x[1..]`. */
  lemma SplitCons(x: string, sep: string)
    requires sep != [] && x != []
    requires |x| >= |sep| ==> x[..|sep|] != sep
    ensures Split(x, sep) == [[x[0]] + Split(x[1..], sep)[0]] + Split(x[1..], sep)[1..]
  {
    if |x| < |sep| {
      assert !Contains(x[1..], sep);
      SplitWithout(x[1..], sep);
      assert [x[0]] + x[1..] == x;
    }
  }

  function TrimStart(s: string): (r: string)
    ensures EndsWith(s, r) && AllSpace(s[..|s| - |r|])
    ensures r == [] || !IsSpace(r[0])
    decreases |s|
  {
    if s != [] && IsSpace(s[0]) then TrimStart(s[1..]) else s
  }

  function TrimEnd(s: string): (r: string)
    ensures StartsWith(s, r) && AllSpace(s[|r|..])
    ensures r == [] || !IsSpace(r[|r| - 1])
    decreases |s|
  {
    if s != [] && IsSpace(s[|s| - 1]) then TrimEnd(s[..|s| - 1]) else s
  }

  /** Python's `s.strip()`: `s` with its leading and trailing whitespace
      removed. */
  function Strip(s: string): (r: string)
    ensures r == [] || (!IsSpace(r[0]) && !IsSpace(r[|r| - 1]))
  {
    TrimEnd(TrimStart(s))
  }

  /** What `strip` removes is whitespace on either side: the result sits in
      `s` between two all-whitespace runs. */
  lemma StripOccurs(s: string) returns (i: nat)
    ensures i + |Strip(s)| <= |s| && s[i..i + |Strip(s)|] == Strip(s)
    ensures AllSpace(s[..i]) && AllSpace(s[i + |Strip(s)|..])
  {
    var t := TrimStart(s);
    var r := TrimEnd(t);
    i := |s| - |t|;
    assert r == Strip(s);
    assert s[i..] == t;
    assert t[..|r|] == r;
    assert s[i..i + |r|] == s[i..][..|r|];
    assert s[i + |r|..] == s[i..][|r|..];
  }
}
