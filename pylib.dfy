/**
 The small part of Python's behaviour the viewer relies on: `os.path`
 (posix flavour) `dirname`, `basename` and `join`, `str.lower` and
 `str.endswith`, `list.index` and list subscription.
 */
module PyLib {

  datatype Option<T> = None | Some(value: T)

  /** Whether `i` subscripts a Python list of length `n` without raising
      IndexError: a negative subscript counts from the end. */
  predicate Subscriptable(n: nat, i: int)
  {
    -(n as int) <= i < n
  }

  /** `s[i]` on a Python list; None stands for the IndexError. */
  function PyIndex<T>(s: seq<T>, i: int): (r: Option<T>)
    ensures r.Some? <==> Subscriptable(|s|, i)
    ensures r.Some? ==> r.value == s[if i >= 0 then i else |s| + i]
  {
    if !Subscriptable(|s|, i) then None
    else if i >= 0 then Some(s[i])
    else Some(s[|s| + i])
  }

  /** `list.index(x)`: the position of the first occurrence of `x`;
      None stands for the ValueError raised when `x` is absent. */
  function IndexOf<T(==)>(s: seq<T>, x: T): (r: Option<nat>)
    ensures r.None? <==> x !in s
    ensures r.Some? ==> r.value < |s| && s[r.value] == x && x !in s[..r.value]
  {
    if s == [] then None
    else if s[0] == x then Some(0)
    else match IndexOf(s[1..], x)
      case None => None
      case Some(i) =>
        assert s[..i + 1] == [s[0]] + s[1..][..i];
        Some(i + 1)
  }

  /** An occurrence with no earlier one is what `list.index` finds. */
  lemma IndexOfIsFirst<T>(s: seq<T>, x: T, i: nat)
    requires i < |s| && s[i] == x && x !in s[..i]
    ensures IndexOf(s, x) == Some(i)
  {
    assert s[i] in s;
    var r := IndexOf(s, x);
    assert forall k :: 0 <= k < i ==> s[..i][k] == s[k];
    assert forall k :: 0 <= k < r.value ==> s[..r.value][k] == s[k];
  }

  /** Two lists in which `x` and `y` sit at the same positions give the
      same answer to `index`. */
  lemma IndexOfSamePositions<T, U>(s: seq<T>, x: T, t: seq<U>, y: U)
    requires |s| == |t|
    requires forall j :: 0 <= j < |s| ==> (s[j] == x <==> t[j] == y)
    ensures IndexOf(s, x) == IndexOf(t, y)
  {
    match IndexOf(s, x)
    case None =>
      forall j | 0 <= j < |t| ensures t[j] != y {
        assert s[j] in s;
      }
    case Some(i) =>
      forall j | 0 <= j < i ensures t[..i][j] != y {
        assert s[..i][j] == s[j];
      }
      IndexOfIsFirst(t, y, i);
  }

  /** `str.lower` on the characters that matter here: ASCII letters are
      folded, every other character is kept. */
  function LowerChar(c: char): char
  {
    if 'A' <= c <= 'Z' then (c as int + 32) as char else c
  }

  function Lower(s: string): string
  {
    seq(|s|, i requires 0 <= i < |s| => LowerChar(s[i]))
  }

  /** `s.endswith(suffix)` */
  predicate EndsWith(s: string, suffix: string)
  {
    |suffix| <= |s| && s[|s| - |suffix|..] == suffix
  }

  predicate AllSlashes(s: string)
  {
    forall k :: 0 <= k < |s| ==> s[k] == '/'
  }

  /** `p.rfind('/') + 1`: where the last path component starts. */
  function SplitPoint(p: string): (r: nat)
    ensures r <= |p|
    ensures r > 0 ==> p[r - 1] == '/'
    ensures forall k :: r <= k < |p| ==> p[k] != '/'
  {
    if p == [] then 0
    else if p[|p| - 1] == '/' then |p|
    else SplitPoint(p[..|p| - 1])
  }

  /** `s.rstrip('/')` */
  function RStripSlashes(s: string): (r: string)
    ensures |r| <= |s| && r == s[..|r|]
    ensures r == [] || r[|r| - 1] != '/'
    ensures AllSlashes(s[|r|..])
  {
    if s != [] && s[|s| - 1] == '/' then
      var r := RStripSlashes(s[..|s| - 1]);
      assert s[|r|..] == s[..|s| - 1][|r|..] + ['/'];
      r
    else s
  }

  /** `os.path.dirname`: everything before the last component, with its
      trailing slashes removed unless it consists of slashes only. */
  function Dirname(p: string): string
  {
    var head := p[..SplitPoint(p)];
    if head != [] && !AllSlashes(head) then RStripSlashes(head) else head
  }

  /** `os.path.basename`: the last component. */
  function Basename(p: string): (r: string)
    ensures '/' !in r
  {
    p[SplitPoint(p)..]
  }

  /** `os.path.join(a, b)` for two components. */
  function Join(a: string, b: string): string
  {
    if b != [] && b[0] == '/' then b
    else if a == [] || a[|a| - 1] == '/' then a + b
    else a + "/" + b
  }

  /** The rewriting `join(dirname(p), basename(p))` that the viewer applies
      to the path it opens. */
  function Normalize(p: string): string
  {
    Join(Dirname(p), Basename(p))
  }

  /** `dirname` keeps a prefix of the path. */
  lemma DirnameIsPrefix(p: string)
    ensures |Dirname(p)| <= |p| && Dirname(p) == p[..|Dirname(p)|]
  {
    var head := p[..SplitPoint(p)];
    if head != [] && !AllSlashes(head) {
      var r := RStripSlashes(head);
      assert p[..|r|] == head[..|r|];
    }
  }

  /** `join` ends with its second component. */
  lemma JoinEndsWith(a: string, b: string)
    ensures |b| <= |Join(a, b)| && Join(a, b)[|Join(a, b)| - |b|..] == b
  {
    if !(b != [] && b[0] == '/') && !(a == [] || a[|a| - 1] == '/') {
      assert a + "/" + b == (a + "/") + b;
    }
  }

  /** A single path component, as `os.listdir` returns names and
      `basename` returns the last component: no slash inside. */
  predicate PlainName(f: string)
  {
    '/' !in f
  }

  lemma PlainNameNoLeadingSlash(f: string)
    requires PlainName(f)
    ensures f == [] || f[0] != '/'
  {
    if f != [] { assert f[0] in f; }
  }

  /** A path followed by a component free of slashes splits right after
      that path, whenever the path is empty or ends in a slash. */
  lemma SplitPointAfter(x: string, y: string)
    requires '/' !in y
    requires x == [] || x[|x| - 1] == '/'
    ensures SplitPoint(x + y) == |x|
  {
    assert x != [] ==> (x + y)[|x| - 1] == '/';
  }

  /** Joining a directory with a slash-free name keeps the name as the last
      component and the directory (up to trailing slashes) as the rest. */
  lemma {:induction false} BasenameOfJoin(d: string, b: string)
    requires PlainName(b)
    ensures Basename(Join(d, b)) == b
  {
    PlainNameNoLeadingSlash(b);
    if d == [] || d[|d| - 1] == '/' {
      SplitPointAfter(d, b);
      assert (d + b)[|d|..] == b;
    } else {
      SplitPointAfter(d + "/", b);
      assert d + "/" + b == (d + "/") + b;
      assert ((d + "/") + b)[|d| + 1..] == b;
    }
  }

  /** `dirname` of the rewritten path is the `dirname` of the original. */
  lemma DirnameOfNormalize(p: string)
    ensures Dirname(Normalize(p)) == Dirname(p)
  {
    var sp := SplitPoint(p);
    var head, b := p[..sp], p[sp..];
    var d := Dirname(p);
    assert b == Basename(p);
    PlainNameNoLeadingSlash(b);
    if head == [] {
      assert Normalize(p) == b;
      assert SplitPoint(b) == 0 by { SplitPointAfter([], b); }
    } else if AllSlashes(head) {
      assert d == head;
      assert Normalize(p) == head + b;
      SplitPointAfter(head, b);
      assert (head + b)[..|head|] == head;
    } else {
      assert d == RStripSlashes(head);
      assert head[0..] == head;
      assert Normalize(p) == d + "/" + b;
      DirnameAfterSlash(d, b);
    }
  }

  /** A directory without a trailing slash, a slash and a slash-free name:
      `dirname` gives the directory back. */
  lemma DirnameAfterSlash(d: string, b: string)
    requires d != [] && d[|d| - 1] != '/' && PlainName(b)
    ensures Dirname(d + "/" + b) == d
  {
    var n := d + "/" + b;
    assert n == (d + "/") + b;
    SplitPointAfter(d + "/", b);
    assert n[..|d| + 1] == d + "/";
    assert !AllSlashes(d + "/") by {
      assert (d + "/")[|d| - 1] == d[|d| - 1];
    }
    assert (d + "/")[..|d|] == d;
  }

  /** Joining a directory without a trailing slash and a slash-free name
      puts one slash between them, and `dirname` and `basename` split the
      result back into the two. */
  lemma DirnameBasenameOfJoin(d: string, b: string)
    requires d != [] && d[|d| - 1] != '/' && PlainName(b)
    ensures Join(d, b) == d + "/" + b
    ensures Dirname(Join(d, b)) == d && Basename(Join(d, b)) == b
  {
    PlainNameNoLeadingSlash(b);
    DirnameAfterSlash(d, b);
    BasenameOfJoin(d, b);
  }

  /** Rewriting an already rewritten path changes nothing. */
  lemma NormalizeIdempotent(p: string)
    ensures Basename(Normalize(p)) == Basename(p)
    ensures Normalize(Normalize(p)) == Normalize(p)
  {
    BasenameOfJoin(Dirname(p), Basename(p));
    DirnameOfNormalize(p);
  }

  /** Two names that do not start with a slash and are joined to the same
      directory give the same path only if they are the same name. */
  lemma JoinInjective(d: string, a: string, b: string)
    requires a == [] || a[0] != '/'
    requires b == [] || b[0] != '/'
    requires Join(d, a) == Join(d, b)
    ensures a == b
  {
    var prefix := if d == [] || d[|d| - 1] == '/' then d else d + "/";
    assert Join(d, a) == prefix + a && Join(d, b) == prefix + b;
    assert a == (prefix + a)[|prefix|..];
    assert b == (prefix + b)[|prefix|..];
  }
}
