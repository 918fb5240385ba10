/**
 * The few Python string and `posixpath` operations the crawler relies on:
 * `str.split`, `str.lstrip`/`str.rstrip` of one character, `str.rfind`,
 * `str.endswith`, the `in` substring test, ASCII `str.lower`, and
 * `os.path.basename`, `os.path.dirname`, `os.path.join` (POSIX flavour).
 */
module PyText {

  /** `s.endswith(suffix)` */
  predicate EndsWith(s: string, suffix: string) {
    |suffix| <= |s| && s[|s| - |suffix|..] == suffix
  }

  /** `c not in s`, stated index by index. */
  predicate Lacks(s: string, c: char) {
    forall k :: 0 <= k < |s| ==> s[k] != c
  }

  /** `sub in s[i:]` for substrings: some occurrence of `sub` starts at or after `i`. */
  predicate ContainsFrom(s: string, sub: string, i: nat)
    decreases |s| - i
  {
    i + |sub| <= |s| && (s[i..i + |sub|] == sub || ContainsFrom(s, sub, i + 1))
  }

  /** `sub in s` */
  predicate Contains(s: string, sub: string) {
    ContainsFrom(s, sub, 0)
  }

  /** ASCII lower-casing of one character. */
  function LowerChar(c: char): char {
    if 'A' <= c <= 'Z' then (c as int + 32) as char else c
  }

  /** `s.lower()` restricted to ASCII letters. */
  function Lower(s: string): (r: string)
    ensures |r| == |s|
    ensures forall i :: 0 <= i < |s| ==> r[i] == LowerChar(s[i])
  {
    if s == [] then [] else [LowerChar(s[0])] + Lower(s[1..])
  }

  /** The first index at or after `i` not holding `c`: the end of the run of copies of `c` starting at `i`. */
  function RunEnd(s: string, c: char, i: nat): (n: nat)
    requires i <= |s|
    ensures i <= n <= |s|
    decreases |s| - i
  {
    if i < |s| && s[i] == c then RunEnd(s, c, i + 1) else i
  }

  /** `s.lstrip(c)` */
  function LStrip(s: string, c: char): string {
    s[RunEnd(s, c, 0)..]
  }

  lemma {:induction false} RunEndIsEnd(s: string, c: char, i: nat)
    requires i <= |s|
    ensures forall k :: i <= k < RunEnd(s, c, i) ==> s[k] == c
    ensures RunEnd(s, c, i) == |s| || s[RunEnd(s, c, i)] != c
    decreases |s| - i
  {
    if i < |s| && s[i] == c {
      RunEndIsEnd(s, c, i + 1);
    }
  }

  /** `lstrip` removes the leading copies of `c` and nothing else: what remains does not start with `c`. */
  lemma LStripRemovesOnly(s: string, c: char)
    ensures forall i :: 0 <= i < |s| - |LStrip(s, c)| ==> s[i] == c
    ensures LStrip(s, c) == [] || LStrip(s, c)[0] != c
  {
    RunEndIsEnd(s, c, 0);
  }

  /** `s.rstrip(c)` */
  function RStrip(s: string, c: char): (r: string)
    ensures r <= s
    ensures r == [] || r[|r| - 1] != c
    ensures forall i :: |r| <= i < |s| ==> s[i] == c
  {
    if s != [] && s[|s| - 1] == c then RStrip(s[..|s| - 1], c) else s
  }

  /** The index just past the last `c` among the first `n` characters, or 0 when there is none. */
  function AfterLastUpTo(s: string, c: char, n: nat): (r: nat)
    requires n <= |s|
    ensures r <= n
    decreases n
  {
    if n == 0 then 0 else if s[n - 1] == c then n else AfterLastUpTo(s, c, n - 1)
  }

  /** `s.rfind(c) + 1`: the index just past the last `c`, or 0 when there is none. */
  function AfterLast(s: string, c: char): (r: nat)
    ensures r <= |s|
  {
    AfterLastUpTo(s, c, |s|)
  }

  lemma {:induction false} AfterLastUpToIsLast(s: string, c: char, n: nat)
    requires n <= |s|
    ensures AfterLastUpTo(s, c, n) > 0 ==> s[AfterLastUpTo(s, c, n) - 1] == c
    ensures forall j :: AfterLastUpTo(s, c, n) <= j < n ==> s[j] != c
    decreases n
  {
    if n > 0 && s[n - 1] != c {
      AfterLastUpToIsLast(s, c, n - 1);
    }
  }

  /** The index before the one `AfterLast` returns holds `c`, and no later index does. */
  lemma AfterLastIsLast(s: string, c: char)
    ensures AfterLast(s, c) > 0 ==> s[AfterLast(s, c) - 1] == c
    ensures forall j :: AfterLast(s, c) <= j < |s| ==> s[j] != c
  {
    AfterLastUpToIsLast(s, c, |s|);
  }

  /** `s.split(sep)`: the pieces between occurrences of `sep`; always at least one piece. */
  function Split(s: string, sep: char): (r: seq<string>)
    ensures |r| >= 1
    ensures forall i :: 0 <= i < |r| ==> Lacks(r[i], sep)
    ensures r[0] <= s
  {
    if s == [] then [""]
    else if s[0] == sep then [""] + Split(s[1..], sep)
    else
      var rest := Split(s[1..], sep);
      [[s[0]] + rest[0]] + rest[1..]
  }

  /** `sep.join(parts)`, the inverse of `Split`. */
  function JoinWith(parts: seq<string>, sep: char): string
    requires |parts| >= 1
  {
    if |parts| == 1 then parts[0] else parts[0] + [sep] + JoinWith(parts[1..], sep)
  }

  lemma {:induction false} SplitJoin(s: string, sep: char)
    ensures JoinWith(Split(s, sep), sep) == s
  {
    if s != [] {
      SplitJoin(s[1..], sep);
      if s[0] != sep {
        var rest := Split(s[1..], sep);
        var r := [[s[0]] + rest[0]] + rest[1..];
        assert Split(s, sep) == r;
        if |rest| > 1 {
          assert r[1..] == rest[1..];
        }
      } else {
        assert Split(s, sep)[1..] == Split(s[1..], sep);
      }
    }
  }

  lemma {:induction false} SplitWithoutSep(s: string, sep: char)
    requires Lacks(s, sep)
    ensures Split(s, sep) == [s]
    decreases |s|
  {
    if s != [] {
      assert forall k :: 0 <= k < |s| - 1 ==> s[1..][k] == s[k + 1];
      SplitWithoutSep(s[1..], sep);
      assert s == [s[0]] + s[1..];
    }
  }

  lemma {:induction false} SplitAppend(a: string, b: string, sep: char)
    ensures Split(a + [sep] + b, sep) == Split(a, sep) + Split(b, sep)
  {
    if a == [] {
      assert a + [sep] + b == [sep] + b;
      assert ([sep] + b)[1..] == b;
    } else {
      var t := a + [sep] + b;
      assert t[0] == a[0];
      assert t[1..] == a[1..] + [sep] + b;
      SplitAppend(a[1..], b, sep);
    }
  }

  /** `[p for p in parts if p]` */
  function NonEmpty(parts: seq<string>): (r: seq<string>)
    ensures |r| <= |parts|
    ensures forall i :: 0 <= i < |r| ==> r[i] != ""
  {
    if parts == [] then []
    else if parts[0] == "" then NonEmpty(parts[1..])
    else [parts[0]] + NonEmpty(parts[1..])
  }

  /** The filter drops exactly the empty parts: every other part is kept, as often as it occurs. */
  lemma {:induction false} NonEmptyKeepsOthers(parts: seq<string>)
    ensures multiset(NonEmpty(parts)) == multiset(parts)["" := 0]
    decreases |parts|
  {
    if parts != [] {
      NonEmptyKeepsOthers(parts[1..]);
      assert parts == [parts[0]] + parts[1..];
    }
  }

  lemma {:induction false} NonEmptyAppend(a: seq<string>, b: seq<string>)
    ensures NonEmpty(a + b) == NonEmpty(a) + NonEmpty(b)
  {
    if a == [] {
      assert a + b == b;
    } else {
      assert (a + b)[0] == a[0];
      assert (a + b)[1..] == a[1..] + b;
      NonEmptyAppend(a[1..], b);
    }
  }

  /** The non-empty components of a `/`-separated path. */
  function Segments(p: string): seq<string> {
    NonEmpty(Split(p, '/'))
  }

  lemma TrailingSlashSegments(p: string)
    ensures Segments(p + ['/']) == Segments(p)
  {
    assert p + ['/'] == p + ['/'] + [];
    SplitAppend(p, [], '/');
    NonEmptyAppend(Split(p, '/'), [""]);
  }

  lemma {:induction false} RStripSegments(p: string)
    ensures Segments(RStrip(p, '/')) == Segments(p)
    decreases |p|
  {
    if p != [] && p[|p| - 1] == '/' {
      var q := p[..|p| - 1];
      RStripSegments(q);
      assert p == q + ['/'];
      TrailingSlashSegments(q);
    }
  }

  /** `os.path.basename(p)`: what follows the last `/`. */
  function Basename(p: string): (r: string)
    ensures |r| <= |p| && r == p[|p| - |r|..]
  {
    p[AfterLast(p, '/')..]
  }

  /** `c in s[i:]`, scanned one index at a time. */
  predicate OccursFrom(s: string, c: char, i: nat)
    requires i <= |s|
    decreases |s| - i
  {
    i < |s| && (s[i] == c || OccursFrom(s, c, i + 1))
  }

  lemma {:induction false} OccursFromIsIn(s: string, c: char, i: nat)
    requires i <= |s|
    ensures OccursFrom(s, c, i) <==> c in s[i..]
    decreases |s| - i
  {
    if i < |s| {
      OccursFromIsIn(s, c, i + 1);
      assert s[i..] == [s[i]] + s[i + 1..];
    }
  }

  /** `c in os.path.basename(p)` */
  predicate InBasename(c: char, p: string) {
    OccursFrom(p, c, AfterLast(p, '/'))
  }

  lemma InBasenameIsIn(c: char, p: string)
    ensures InBasename(c, p) <==> c in Basename(p)
  {
    OccursFromIsIn(p, c, AfterLast(p, '/'));
  }

  /** The base name holds no `/`. */
  lemma BasenameHasNoSlash(p: string)
    ensures '/' !in Basename(p)
  {
    AfterLastIsLast(p, '/');
    var k := AfterLast(p, '/');
    forall i | 0 <= i < |Basename(p)| ensures Basename(p)[i] != '/' {
      assert Basename(p)[i] == p[k + i];
    }
  }

  /** `os.path.dirname(p)`: up to the last `/`, trailing slashes removed unless it is all slashes. */
  function Dirname(p: string): string {
    var head := p[..AfterLast(p, '/')];
    var stripped := RStrip(head, '/');
    if stripped != [] then stripped else head
  }

  /**
   * The directory part and the base name together hold exactly the path's
   * components: `Dirname` drops the base name and nothing else.
   */
  lemma DirnameSegments(p: string)
    ensures Segments(Dirname(p)) + NonEmpty([Basename(p)]) == Segments(p)
  {
    var k := AfterLast(p, '/');
    var base := Basename(p);
    AfterLastIsLast(p, '/');
    BasenameHasNoSlash(p);
    if k == 0 {
      assert '/' !in p;
      SplitWithoutSep(p, '/');
      assert Dirname(p) == [];
      assert p == base;
    } else {
      var lead := p[..k - 1];
      assert p == lead + ['/'] + base;
      SplitAppend(lead, base, '/');
      SplitWithoutSep(base, '/');
      NonEmptyAppend(Split(lead, '/'), [base]);
      var head := p[..k];
      assert head == lead + ['/'];
      TrailingSlashSegments(lead);
      RStripSegments(head);
    }
  }

  /** `os.path.join(a, b)`: an absolute `b` replaces `a`; otherwise one `/` separates them. */
  function PathJoin(a: string, b: string): string {
    if b != [] && b[0] == '/' then b
    else if a == [] || a[|a| - 1] == '/' then a + b
    else a + "/" + b
  }

  /** `os.path.join(first, *rest)` */
  function JoinAll(first: string, rest: seq<string>): string
    decreases |rest|
  {
    if rest == [] then first else JoinAll(PathJoin(first, rest[0]), rest[1..])
  }

  /** No component after the first is absolute, so joining only ever extends the first. */
  lemma {:induction false} JoinAllExtends(first: string, rest: seq<string>)
    requires forall i :: 0 <= i < |rest| ==> '/' !in rest[i]
    ensures first <= JoinAll(first, rest)
    decreases |rest|
  {
    if rest != [] {
      var next := PathJoin(first, rest[0]);
      assert rest[0] != [] ==> rest[0][0] != '/';
      assert first <= next;
      JoinAllExtends(next, rest[1..]);
    }
  }
}
