/**
  The JavaScript string operations the address pipeline relies on, over `seq<char>`:
  `trim`, `split(/\s+/)` (only its last element is used), `startsWith`, `indexOf`,
  `includes`, `replace(str, '')` (first occurrence only) and `replace(/\n/g, ' ')`.
 */
module Text {

  import opened Wrappers

  /** JavaScript's `\s` class, which is also the set `String.prototype.trim` removes:
      the WhiteSpace and LineTerminator code points of ECMAScript. */
  predicate IsSpace(c: char) {
    || c == '\t' || c == '\n' || c == '\U{000B}' || c == '\U{000C}' || c == '\r' || c == ' '
    || c == '\U{00A0}' || c == '\U{1680}' || ('\U{2000}' <= c <= '\U{200A}')
    || c == '\U{2028}' || c == '\U{2029}' || c == '\U{202F}' || c == '\U{205F}'
    || c == '\U{3000}' || c == '\U{FEFF}'
  }

  /** The characters a regular-expression `.` does not match (no `s` flag). */
  predicate IsLineTerminator(c: char) {
    c == '\n' || c == '\r' || c == '\U{2028}' || c == '\U{2029}'
  }

  /** A string with no leading or trailing whitespace: what `trim` produces. */
  predicate Trimmed(s: string) {
    s == [] || (!IsSpace(s[0]) && !IsSpace(s[|s| - 1]))
  }

  function TrimStart(s: string): (r: string)
    ensures |r| <= |s| && r == s[|s| - |r|..]
    ensures forall k :: 0 <= k < |s| - |r| ==> IsSpace(s[k])
    ensures r != [] ==> !IsSpace(r[0])
  {
    if s != [] && IsSpace(s[0]) then TrimStart(s[1..]) else s
  }

  function TrimEnd(s: string): (r: string)
    ensures |r| <= |s| && r == s[..|r|]
    ensures forall k :: |r| <= k < |s| ==> IsSpace(s[k])
    ensures r != [] ==> !IsSpace(r[|r| - 1])
  {
    if s != [] && IsSpace(s[|s| - 1]) then TrimEnd(s[..|s| - 1]) else s
  }

  /** `s.trim()`: the longest middle part of `s` that starts and ends with a non-space. */
  function Trim(s: string): (r: string)
    ensures Trimmed(r) && |r| <= |s|
    ensures Trimmed(s) ==> r == s
  {
    TrimEnd(TrimStart(s))
  }

  /** `trim` removes exactly the outer whitespace: dropping the leading whitespace leaves a
      suffix `t` of `s` with only whitespace before it, and the result is the prefix of `t`
      with only whitespace after it. With the result trimmed, this fixes it. */
  lemma TrimDropsOuterSpace(s: string)
    ensures var t, r := TrimStart(s), Trim(s);
            && t == s[|s| - |t|..] && (forall k :: 0 <= k < |s| - |t| ==> IsSpace(s[k]))
            && |r| <= |t| && r == t[..|r|] && (forall k :: |r| <= k < |t| ==> IsSpace(t[k]))
            && (r != [] ==> !IsSpace(r[0]) && !IsSpace(r[|r| - 1]))
  {
  }

  /** A trimmed non-empty prefix survives trimming of anything written after it. */
  lemma TrimKeepsLeadingWord(a: string, x: string)
    requires a != [] && Trimmed(a)
    ensures StartsWith(Trim(a + x), a)
  {
    var s := a + x;
    assert s[0] == a[0] && s[|a| - 1] == a[|a| - 1];
    var t := TrimStart(s);
    assert !IsSpace(s[0]);
    assert t == s;
    var r := TrimEnd(s);
    assert !IsSpace(s[|a| - 1]);
    assert |a| <= |r|;
    assert r[..|a|] == s[..|a|] == a;
  }

  /** `(a + " " + b).trim()` for trimmed `a` and `b` puts exactly one space between them,
      and none when `b` is empty. */
  lemma TrimJoin(a: string, b: string)
    requires a != [] && Trimmed(a) && Trimmed(b)
    ensures Trim(a + " " + b) == if b == [] then a else a + " " + b
  {
    if b == [] {
      var s := a + " ";
      assert a + " " + b == s;
      assert s[0] == a[0] && !IsSpace(s[0]);
      assert TrimStart(s) == s;
      assert s[..|s| - 1] == a;
      assert TrimEnd(s) == TrimEnd(a);
      assert !IsSpace(a[|a| - 1]);
      assert TrimEnd(a) == a;
    } else {
      var s := a + " " + b;
      assert s[0] == a[0] && s[|s| - 1] == b[|b| - 1];
    }
  }

  /** The word in front of a joining space survives trimming of the joined string. */
  lemma JoinKeepsLeadingWord(a: string, b: string)
    requires a != [] && Trimmed(a)
    ensures StartsWith(Trim(a + " " + b), a)
  {
    assert a + " " + b == a + (" " + b);
    TrimKeepsLeadingWord(a, " " + b);
  }

  /** `s.startsWith(t)` */
  predicate StartsWith(s: string, t: string) {
    |t| <= |s| && s[..|t|] == t
  }

  /** `t` occurs in `s` starting at index `k`. */
  predicate OccursAt(s: string, t: string, k: nat) {
    k + |t| <= |s| && s[k..k + |t|] == t
  }

  /** An occurrence inside a slice is an occurrence in the whole string. */
  lemma OccursInSlice(s: string, lo: nat, hi: nat, t: string, k: nat)
    requires lo <= hi <= |s|
    ensures OccursAt(s[lo..hi], t, k) ==> OccursAt(s, t, lo + k)
  {
    if OccursAt(s[lo..hi], t, k) {
      var a, b := s[lo..hi][k..k + |t|], s[lo + k..lo + k + |t|];
      assert forall m :: 0 <= m < |t| ==> a[m] == s[lo + k + m] == b[m];
      assert a == b;
    }
  }

  /** `s.indexOf(t, from)`, with `None` for -1. */
  function IndexOf(s: string, t: string, from: nat): (r: Option<nat>)
    decreases |s| - from
    ensures r.Some? ==> from <= r.value && OccursAt(s, t, r.value)
    ensures r.Some? ==> forall k :: from <= k < r.value ==> !OccursAt(s, t, k)
    ensures r.None? ==> forall k :: from <= k ==> !OccursAt(s, t, k)
  {
    if from + |t| > |s| then None
    else if s[from..from + |t|] == t then Some(from)
    else IndexOf(s, t, from + 1)
  }

  /** `s.includes(t)` */
  predicate Contains(s: string, t: string)
    ensures Contains(s, t) <==> exists k :: OccursAt(s, t, k)
  {
    IndexOf(s, t, 0).Some?
  }

  lemma StartsWithContains(s: string, t: string)
    requires StartsWith(s, t)
    ensures Contains(s, t)
  {
    assert OccursAt(s, t, 0);
  }

  /** `s.replace(t, '')`: with a string pattern JavaScript replaces only the first occurrence. */
  function RemoveFirst(s: string, t: string): (r: string)
    ensures (forall k :: !OccursAt(s, t, k)) ==> r == s
    ensures (exists k :: OccursAt(s, t, k)) ==> |r| == |s| - |t|
    ensures IndexOf(s, t, 0) == Some(0) ==> r == s[|t|..]
    ensures IndexOf(s, t, 0).Some? ==>
              var i := IndexOf(s, t, 0).value; r[..i] == s[..i] && r[i..] == s[i + |t|..]
  {
    match IndexOf(s, t, 0)
    case None => s
    case Some(i) => s[..i] + s[i + |t|..]
  }

  /** Removing the first occurrence keeps every character before it. */
  lemma RemoveFirstKeepsPrefix(s: string, t: string, n: nat)
    requires n <= |s|
    requires forall k :: 0 <= k < n ==> !OccursAt(s, t, k)
    ensures StartsWith(RemoveFirst(s, t), s[..n])
  {
    match IndexOf(s, t, 0)
    case None =>
    case Some(p) =>
      assert n <= p;
      assert (s[..p] + s[p + |t|..])[..n] == s[..n];
  }

  /** Every character left by `RemoveFirst` comes from the original string. */
  lemma RemoveFirstKeepsChars(s: string, t: string, k: nat)
    requires k < |RemoveFirst(s, t)|
    ensures exists m :: 0 <= m < |s| && RemoveFirst(s, t)[k] == s[m]
  {
    match IndexOf(s, t, 0)
    case None =>
      assert RemoveFirst(s, t)[k] == s[k];
    case Some(i) =>
      if k < i {
        assert RemoveFirst(s, t)[k] == s[k];
      } else {
        assert RemoveFirst(s, t)[k] == s[k + |t|];
      }
  }

  /** The last element of `s.split(/\s+/)`: the characters after the last whitespace. */
  function LastToken(s: string): (r: string)
    ensures |r| <= |s| && r == s[|s| - |r|..]
    ensures forall k :: 0 <= k < |r| ==> !IsSpace(r[k])
    ensures |r| < |s| ==> IsSpace(s[|s| - |r| - 1])
  {
    if s == [] || IsSpace(s[|s| - 1]) then [] else LastToken(s[..|s| - 1]) + [s[|s| - 1]]
  }

  /** `s.replace(/\n/g, ' ')` */
  function ReplaceNewlines(s: string): (r: string)
    ensures |r| == |s|
    ensures forall k :: 0 <= k < |s| ==> r[k] == if s[k] == '\n' then ' ' else s[k]
  {
    seq(|s|, k requires 0 <= k < |s| => if s[k] == '\n' then ' ' else s[k])
  }
}
