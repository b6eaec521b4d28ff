/** The order on file names that the in-memory file system's map is sorted by. */
module NameOrder {

  predicate IsSeparator(c: char) {
    c == ':' || c == '\\'
  }

  predicate SeparatorFree(s: string) {
    forall i :: 0 <= i < |s| ==> !IsSeparator(s[i])
  }

  predicate IsComponent(c: string) {
    c != [] && SeparatorFree(c)
  }

  /** A name component, and a path as the list of its components; the root is the empty list. */
  type Component = c: string | IsComponent(c) witness "a"
  type Path = seq<Component>

  // ---------------------------------------------------------------- the comparison on strings

  /** Skips leading separators: what is left, and the weight of the last one skipped. */
  function SkipSeparators(s: string, weight: nat): (r: (nat, string))
    ensures |r.1| <= |s|
    ensures s != [] && IsSeparator(s[0]) ==> |r.1| < |s|
    ensures r.1 != [] ==> !IsSeparator(r.1[0])
  {
    if s != [] && IsSeparator(s[0]) then SkipSeparators(s[1..], if s[0] == ':' then 1 else 2)
    else (weight, s)
  }

  /** The length of the leading component. */
  function PartLength(s: string): (n: nat)
    ensures n <= |s| && SeparatorFree(s[..n]) && (n < |s| ==> IsSeparator(s[n]))
  {
    if s == [] || IsSeparator(s[0]) then 0 else
      assert s[..1 + PartLength(s[1..])] == [s[0]] + s[1..][..PartLength(s[1..])];
      1 + PartLength(s[1..])
  }

  /** Code-unit comparison of two components; a proper prefix comes first. */
  function ComparePart(p: string, q: string): int {
    if p == [] || q == [] then |p| - |q|
    else if p[0] != q[0] then p[0] as int - q[0] as int
    else ComparePart(p[1..], q[1..])
  }

  function CompareNames(a: string, b: string): int
    decreases |a|
  {
    if a == [] || b == [] then (if b == [] then 1 else 0) - (if a == [] then 1 else 0)
    else
      var (c, a1) := SkipSeparators(a, 0);
      var (d, b1) := SkipSeparators(b, 0);
      if c != d then c - d
      else
        var n, m := PartLength(a1), PartLength(b1);
        var res := ComparePart(a1[..n], b1[..m]);
        if res != 0 then res else CompareNames(a1[n..], b1[m..])
  }

  method SkipLoop(s: string, from: nat) returns (weight: nat, p: nat)
    requires from <= |s|
    ensures from <= p <= |s| && (weight, s[p..]) == SkipSeparators(s[from..], 0)
  {
    p, weight := from, 0;
    while p < |s| && IsSeparator(s[p])
      invariant from <= p <= |s|
      invariant SkipSeparators(s[from..], 0) == SkipSeparators(s[p..], weight)
    {
      weight := if s[p] == ':' then 1 else 2;
      assert s[p..][1..] == s[p + 1..];
      p := p + 1;
    }
  }

  method PartLoop(s: string, from: nat) returns (p: nat)
    requires from <= |s|
    ensures from <= p <= |s| && p - from == PartLength(s[from..])
  {
    p := from;
    while p < |s| && !IsSeparator(s[p])
      invariant from <= p <= |s|
      invariant PartLength(s[from..]) == p - from + PartLength(s[p..])
    {
      assert s[p..][1..] == s[p + 1..];
      p := p + 1;
    }
  }

  /** The bounded wide-character comparison followed by the length difference. */
  method ComparePartLoop(p: string, q: string) returns (res: int)
    ensures res == ComparePart(p, q)
  {
    var len := if |p| < |q| then |p| else |q|;
    var i := 0;
    while i < len
      invariant 0 <= i <= len
      invariant ComparePart(p, q) == ComparePart(p[i..], q[i..])
    {
      if p[i] != q[i] {
        return p[i] as int - q[i] as int;
      }
      assert p[i..][1..] == p[i + 1..] && q[i..][1..] == q[i + 1..];
      i := i + 1;
    }
    res := |p| - |q|;
  }

  lemma TakeDrop(s: string, from: nat, to: nat)
    requires from <= to <= |s|
    ensures s[from..][..to - from] == s[from..to] && s[from..][to - from..] == s[to..]
  {
  }

  method MemfsFileNameCompare(a: string, b: string) returns (res: int)
    ensures res == CompareNames(a, b)
  {
    hide ComparePart;
    hide PartLength;
    hide SkipSeparators;
    var p, q := 0, 0;
    while p < |a| && q < |b|
      invariant 0 <= p <= |a| && 0 <= q <= |b|
      invariant CompareNames(a, b) == CompareNames(a[p..], b[q..])
      decreases |a| - p
    {
      ghost var p0 := p;
      var c: int, d: int;
      c, p := SkipLoop(a, p);
      d, q := SkipLoop(b, q);
      res := c - d;
      if res != 0 {
        return;
      }
      var partp, partq := p, q;
      p := PartLoop(a, p);
      q := PartLoop(b, q);
      TakeDrop(a, partp, p);
      TakeDrop(b, partq, q);
      res := ComparePartLoop(a[partp..p], b[partq..q]);
      if res != 0 {
        return;
      }
      assert p > p0;
    }
    res := (if q == |b| then 1 else 0) - (if p == |a| then 1 else 0);
  }

  method MemfsFileNameHasPrefix(a: string, b: string) returns (has: bool)
    requires b != []
    ensures has == HasPrefix(a, b)
  {
    has := false;
    if |a| >= |b| {
      var res := MemfsFileNameCompare(a[..|b|], b);
      has := res == 0 && (|a| == |b| || (|b| == 1 && b[0] == '\\') || a[|b|] == '\\');
    }
  }

  predicate HasPrefix(a: string, b: string) {
    && |a| >= |b| && CompareNames(a[..|b|], b) == 0
    && (|a| == |b| || (|b| == 1 && b[0] == '\\') || a[|b|] == '\\')
  }

  // ---------------------------------------------------------------- paths as strings

  /** Each component behind a backslash. */
  function Render(l: seq<string>): string {
    if l == [] then "" else "\\" + l[0] + Render(l[1..])
  }

  function NameOf(p: Path): string {
    if p == [] then "\\" else Render(p)
  }

  /** Component lists whose last component alone may be empty: the prefixes of path strings. */
  ghost predicate Splits(l: seq<string>) {
    && (forall i :: 0 <= i < |l| ==> SeparatorFree(l[i]))
    && (forall i :: 0 <= i < |l| - 1 ==> l[i] != [])
  }

  lemma {:induction false} RenderAppend(a: seq<string>, b: seq<string>)
    ensures Render(a + b) == Render(a) + Render(b)
  {
    if a == [] {
      assert a + b == b;
    } else {
      RenderAppend(a[1..], b);
      assert (a + b)[1..] == a[1..] + b;
    }
  }

  /** Cutting off the first component of a string that starts with it. */
  lemma {:induction false} PartOf(x: string, rest: string)
    requires SeparatorFree(x) && (rest == [] || IsSeparator(rest[0]))
    ensures PartLength(x + rest) == |x|
    ensures (x + rest)[..|x|] == x && (x + rest)[|x|..] == rest
  {
  }

  /** Comparison of component lists, first difference first. */
  function CompareLists(a: seq<string>, b: seq<string>): int {
    if a == [] || b == [] then (if b == [] then 1 else 0) - (if a == [] then 1 else 0)
    else
      var res := ComparePart(a[0], b[0]);
      if res != 0 then res else CompareLists(a[1..], b[1..])
  }

  lemma SkipHead(t: string)
    requires t == [] || !IsSeparator(t[0])
    ensures SkipSeparators("\\" + t, 0) == (2, t)
  {
  }

  lemma SkipOne(x: string, rest: string)
    requires SeparatorFree(x) && (x == [] ==> rest == [])
    ensures SkipSeparators("\\" + x + rest, 0) == (2, x + rest)
  {
    hide SkipSeparators;
    assert "\\" + x + rest == "\\" + (x + rest);
    SkipHead(x + rest);
  }

  /** On rendered component lists the pointer loop is the comparison of the lists. */
  lemma {:induction false} CompareRendered(a: seq<string>, b: seq<string>)
    requires Splits(a) && Splits(b)
    ensures CompareNames(Render(a), Render(b)) == CompareLists(a, b)
  {
    hide ComparePart;
    hide PartLength;
    hide SkipSeparators;
    if a != [] && b != [] {
      SkipOne(a[0], Render(a[1..]));
      SkipOne(b[0], Render(b[1..]));
      PartOf(a[0], Render(a[1..]));
      PartOf(b[0], Render(b[1..]));
      CompareRendered(a[1..], b[1..]);
    }
  }

  // ---------------------------------------------------------------- the order on paths

  lemma {:induction false} PartOrder(p: string, q: string)
    ensures ComparePart(p, q) == 0 <==> p == q
    ensures ComparePart(p, q) < 0 <==> ComparePart(q, p) > 0
  {
    if p != [] && q != [] && p[0] == q[0] {
      PartOrder(p[1..], q[1..]);
      assert p == [p[0]] + p[1..] && q == [q[0]] + q[1..];
    }
  }

  lemma {:induction false} PartTransitive(p: string, q: string, r: string)
    requires ComparePart(p, q) < 0 && ComparePart(q, r) < 0
    ensures ComparePart(p, r) < 0
  {
    if p != [] && q != [] && r != [] && p[0] == q[0] == r[0] {
      PartTransitive(p[1..], q[1..], r[1..]);
    }
  }

  /** p comes before q in the map. */
  predicate Less(p: Path, q: Path) {
    CompareLists(p, q) < 0
  }

  predicate AtMost(p: Path, q: Path) {
    p == q || Less(p, q)
  }

  lemma {:induction false} ListOrder(a: seq<string>, b: seq<string>)
    ensures CompareLists(a, b) == 0 <==> a == b
    ensures CompareLists(a, b) < 0 <==> CompareLists(b, a) > 0
  {
    if a != [] && b != [] {
      PartOrder(a[0], b[0]);
      PartOrder(b[0], a[0]);
      ListOrder(a[1..], b[1..]);
      assert a == [a[0]] + a[1..] && b == [b[0]] + b[1..];
    }
  }

  lemma {:induction false} ListTransitive(a: seq<string>, b: seq<string>, c: seq<string>)
    requires CompareLists(a, b) < 0 && CompareLists(b, c) < 0
    ensures CompareLists(a, c) < 0
  {
    if a != [] && b != [] && c != [] {
      PartOrder(a[0], b[0]);
      PartOrder(b[0], c[0]);
      PartOrder(a[0], c[0]);
      if ComparePart(a[0], b[0]) < 0 && ComparePart(b[0], c[0]) < 0 {
        PartTransitive(a[0], b[0], c[0]);
      } else if a[0] == b[0] && b[0] == c[0] {
        ListTransitive(a[1..], b[1..], c[1..]);
      }
    }
  }

  /** A strict total order on paths. */
  lemma StrictTotalOrder(p: Path, q: Path, r: Path)
    ensures !Less(p, p)
    ensures p == q || Less(p, q) || Less(q, p)
    ensures Less(p, q) ==> !Less(q, p) && p != q
    ensures Less(p, q) && Less(q, r) ==> Less(p, r)
  {
    ListOrder(p, p);
    ListOrder(p, q);
    ListOrder(q, p);
    if Less(p, q) && Less(q, r) {
      ListTransitive(p, q, r);
    }
  }

  /** On path strings the map's comparison is the lexicographic order of the component lists. */
  lemma CompareIsPathOrder(p: Path, q: Path)
    ensures CompareNames(NameOf(p), NameOf(q)) < 0 <==> Less(p, q)
    ensures CompareNames(NameOf(p), NameOf(q)) == 0 <==> p == q
  {
    var a: seq<string> := if p == [] then [""] else p;
    var b: seq<string> := if q == [] then [""] else q;
    assert Render([""]) == "\\";
    CompareRendered(a, b);
    ListOrder(a, b);
    ListOrder(p, q);
    if p == [] && q != [] {
      assert ComparePart("", q[0]) < 0;
    }
    if p != [] && q == [] {
      assert ComparePart(p[0], "") > 0;
    }
  }

  // ---------------------------------------------------------------- the order in plain terms

  /** A proper prefix, or the smaller code unit at the first index where the two differ. */
  ghost predicate PartBefore(x: string, y: string) {
    x < y || exists j :: 0 <= j < |x| && DiffersAt(x, y, j) && x[j] < y[j]
  }

  /** A proper prefix, or the earlier component at the first index where the two differ. */
  ghost predicate PathBefore(p: Path, q: Path) {
    p < q || exists i :: 0 <= i < |p| && DiffersAt(p, q, i) && PartBefore(p[i], q[i])
  }

  predicate DiffersAt<T(==)>(x: seq<T>, y: seq<T>, j: nat) {
    j < |x| && j < |y| && x[..j] == y[..j] && x[j] != y[j]
  }

  /** What the first elements say about the first difference. */
  lemma DiffersLater<T>(x: seq<T>, y: seq<T>, j: nat)
    requires x != [] && y != []
    ensures x[0] == y[0] ==> (DiffersAt(x, y, j + 1) <==> DiffersAt(x[1..], y[1..], j)) && (x < y <==> x[1..] < y[1..])
    ensures x[0] == y[0] ==> !DiffersAt(x, y, 0)
    ensures x[0] != y[0] ==> DiffersAt(x, y, 0) && !DiffersAt(x, y, j + 1) && !(x < y)
  {
    if x[0] == y[0] {
      assert x == [x[0]] + x[1..] && y == [y[0]] + y[1..];
      if j + 1 < |x| && j + 1 < |y| {
        assert x[..j + 1] == [x[0]] + x[1..][..j] && y[..j + 1] == [y[0]] + y[1..][..j];
      }
    } else if j + 1 < |x| && j + 1 < |y| {
      assert x[..j + 1][0] == x[0] && y[..j + 1][0] == y[0];
    }
  }

  lemma DiffersFirst<T>(x: seq<T>, y: seq<T>, j: nat)
    requires x != [] && y != [] && x[0] != y[0]
    ensures DiffersAt(x, y, j) ==> j == 0
  {
    if j > 0 {
      DiffersLater(x, y, j - 1);
    }
  }

  lemma {:induction false} PartsInPlainTerms(x: string, y: string)
    ensures ComparePart(x, y) < 0 <==> PartBefore(x, y)
  {
    if x != [] && y != [] {
      DiffersLater(x, y, 0);
      if x[0] == y[0] {
        PartsInPlainTerms(x[1..], y[1..]);
        forall j: nat ensures DiffersAt(x, y, j + 1) <==> DiffersAt(x[1..], y[1..], j) {
          DiffersLater(x, y, j);
        }
        if PartBefore(x[1..], y[1..]) && !(x[1..] < y[1..]) {
          var j :| 0 <= j < |x[1..]| && DiffersAt(x[1..], y[1..], j) && x[1..][j] < y[1..][j];
          assert DiffersAt(x, y, j + 1) && x[j + 1] < y[j + 1];
        }
        if PartBefore(x, y) && !(x < y) {
          var j :| 0 <= j < |x| && DiffersAt(x, y, j) && x[j] < y[j];
          assert j > 0 && DiffersAt(x[1..], y[1..], j - 1) && x[1..][j - 1] < y[1..][j - 1];
        }
      } else {
        forall j: nat ensures DiffersAt(x, y, j) ==> j == 0 {
          DiffersFirst(x, y, j);
        }
      }
    }
  }

  lemma {:induction false} ListsInPlainTerms(p: Path, q: Path)
    ensures CompareLists(p, q) < 0 <==> PathBefore(p, q)
  {
    hide ComparePart;
    hide PartBefore;
    if p != [] && q != [] {
      DiffersLater(p, q, 0);
      PartOrder(p[0], q[0]);
      PartsInPlainTerms(p[0], q[0]);
      if p[0] == q[0] {
        ListsInPlainTerms(p[1..], q[1..]);
        forall j: nat ensures DiffersAt(p, q, j + 1) <==> DiffersAt(p[1..], q[1..], j) {
          DiffersLater(p, q, j);
        }
        if PathBefore(p[1..], q[1..]) && !(p[1..] < q[1..]) {
          var j :| 0 <= j < |p[1..]| && DiffersAt(p[1..], q[1..], j) && PartBefore(p[1..][j], q[1..][j]);
          assert DiffersAt(p, q, j + 1) && PartBefore(p[j + 1], q[j + 1]);
        }
        if PathBefore(p, q) && !(p < q) {
          var j :| 0 <= j < |p| && DiffersAt(p, q, j) && PartBefore(p[j], q[j]);
          assert j > 0 && DiffersAt(p[1..], q[1..], j - 1) && PartBefore(p[1..][j - 1], q[1..][j - 1]);
        }
      } else {
        forall j: nat ensures DiffersAt(p, q, j) ==> j == 0 {
          DiffersFirst(p, q, j);
        }
      }
    }
  }

  /** The comparison of two path names is negative exactly if the first path is a proper prefix of the second, or its
      component where they first differ is a proper prefix of the other's or has the smaller code unit where those
      first differ. */
  lemma NamesInPlainTerms(p: Path, q: Path)
    ensures CompareNames(NameOf(p), NameOf(q)) < 0 <==> PathBefore(p, q)
  {
    CompareIsPathOrder(p, q);
    ListsInPlainTerms(p, q);
  }

  /** Only the last of several separators in a row counts. */
  lemma SeparatorsInARow(c: char, a: string, b: string)
    requires IsSeparator(c) && a != [] && IsSeparator(a[0])
    ensures CompareNames([c] + a, b) == CompareNames(a, b) && CompareNames(b, [c] + a) == CompareNames(b, a)
  {
    assert ([c] + a)[1..] == a;
    SkipsRest(a, 0, if c == ':' then 1 else 2);
  }

  lemma {:induction false} SkipsRest(a: string, v: nat, w: nat)
    requires a != [] && IsSeparator(a[0])
    ensures SkipSeparators(a, v) == SkipSeparators(a, w)
  {
  }

  /** After equal parts a colon comes before a backslash: a file's streams before what is below a directory. */
  lemma ColonFirst(x: Component, a: string, b: string)
    requires (a == [] || !IsSeparator(a[0])) && (b == [] || !IsSeparator(b[0]))
    ensures CompareNames("\\" + x + ":" + a, "\\" + x + "\\" + b) < 0
    ensures CompareNames("\\" + x + "\\" + b, "\\" + x + ":" + a) > 0
  {
    var u, v := ":" + a, "\\" + b;
    assert "\\" + x + ":" + a == "\\" + (x + u) && "\\" + x + "\\" + b == "\\" + (x + v);
    SamePart(x, u, v);
    SamePart(x, v, u);
    ColonWeighsLess(a, b);
  }

  lemma ColonWeighsLess(a: string, b: string)
    requires (a == [] || !IsSeparator(a[0])) && (b == [] || !IsSeparator(b[0]))
    ensures CompareNames(":" + a, "\\" + b) < 0 && CompareNames("\\" + b, ":" + a) > 0
  {
    assert (":" + a)[1..] == a && ("\\" + b)[1..] == b;
    assert SkipSeparators(a, 1) == (1, a) && SkipSeparators(b, 2) == (2, b);
    assert SkipSeparators(":" + a, 0) == SkipSeparators(a, 1);
    assert SkipSeparators("\\" + b, 0) == SkipSeparators(b, 2);
  }

  /** Equal first parts decide nothing. */
  lemma SamePart(x: Component, u: string, v: string)
    requires u != [] && IsSeparator(u[0]) && v != [] && IsSeparator(v[0])
    ensures CompareNames("\\" + (x + u), "\\" + (x + v)) == CompareNames(u, v)
  {
    hide ComparePart;
    hide PartLength;
    hide SkipSeparators;
    AfterPart(x, u);
    AfterPart(x, v);
    PartOrder(x, x);
  }

  lemma AfterPart(x: Component, rest: string)
    requires rest != [] && IsSeparator(rest[0])
    ensures SkipSeparators("\\" + (x + rest), 0) == (2, x + rest)
    ensures PartLength(x + rest) == |x| && (x + rest)[..|x|] == x && (x + rest)[|x|..] == rest
  {
    SkipHead(x + rest);
    PartOf(x, rest);
  }

  /** A directory comes before everything below it. */
  lemma {:induction false} DirectoryFirst(dir: Path, below: Path)
    requires dir < below
    ensures Less(dir, below)
  {
    if dir != [] {
      PartOrder(dir[0], below[0]);
      DirectoryFirst(dir[1..], below[1..]);
    }
  }

  /** What lies below a directory is one contiguous range of the order that starts at it. */
  lemma {:induction false} SubtreeContiguous(dir: Path, x: Path, below: Path)
    requires dir <= below && AtMost(dir, x) && AtMost(x, below)
    ensures dir <= x
  {
    if dir != [] && dir != x && x != below {
      ListOrder(dir, x);
      assert x != [];
      PartOrder(dir[0], x[0]);
      PartOrder(x[0], below[0]);
      assert dir[0] == below[0] == x[0];
      if dir[1..] != x[1..] && x[1..] != below[1..] {
        SubtreeContiguous(dir[1..], x[1..], below[1..]);
      }
      assert x == [x[0]] + x[1..] && dir == [dir[0]] + dir[1..] && below == [below[0]] + below[1..];
    }
  }

  /** The order is the same below a common prefix. */
  lemma {:induction false} LessUnderPrefix(dir: Path, a: Path, b: Path)
    ensures Less(dir + a, dir + b) <==> Less(a, b)
  {
    if dir == [] {
      assert dir + a == a && dir + b == b;
    } else {
      PartOrder(dir[0], dir[0]);
      LessUnderPrefix(dir[1..], a, b);
      assert (dir + a)[1..] == dir[1..] + a && (dir + b)[1..] == dir[1..] + b;
    }
  }

  // ---------------------------------------------------------------- the prefix test

  /** A non-empty prefix of a rendered path is itself a rendered list. */
  lemma {:induction false} PrefixSplits(p: Path, n: nat) returns (l: seq<string>)
    requires 1 <= n <= |Render(p)|
    ensures Splits(l) && Render(l) == Render(p)[..n]
  {
    var head := |p[0]| + 1;
    if n <= head {
      l := [p[0][..n - 1]];
      assert Render([]) == "";
      assert Render(l) == "\\" + l[0] + Render(l[1..]);
      assert l[1..] == [];
      assert Render(p)[..n] == "\\" + p[0][..n - 1];
    } else {
      var tail := PrefixSplits(p[1..], n - head);
      l := [p[0]] + tail;
      assert l[1..] == tail;
      assert Render(p)[..n] == "\\" + p[0] + Render(p[1..])[..n - head];
    }
  }

  lemma Rendered(p: Path)
    requires p != []
    ensures Render(p) == "\\" + p[0] + Render(p[1..])
    ensures Render(p[1..]) == [] || Render(p[1..])[0] == '\\'
  {
  }

  lemma RenderedNothing()
    ensures Render([]) == []
  {
  }

  /** A rendered path cut at a separator, or not cut, is a rendered path prefix. */
  lemma {:induction false} RenderedPrefix(p: Path, q: Path, rest: string)
    requires Render(p) == Render(q) + rest && (rest == [] || rest[0] == '\\')
    ensures q <= p
  {
    hide PartLength;
    hide Render;
    if q != [] {
      Rendered(q);
      if p == [] {
        RenderedNothing();
        assert false;
      }
      Rendered(p);
      assert Render(p)[1..] == p[0] + Render(p[1..]);
      assert Render(p)[1..] == q[0] + (Render(q[1..]) + rest);
      PartOf(p[0], Render(p[1..]));
      PartOf(q[0], Render(q[1..]) + rest);
      RenderedPrefix(p[1..], q[1..], rest);
      assert p == [p[0]] + p[1..] && q == [q[0]] + q[1..];
    }
  }

  /** Names determine paths. */
  lemma NameInjective(p: Path, q: Path)
    requires NameOf(p) == NameOf(q)
    ensures p == q
  {
    CompareIsPathOrder(p, q);
    CompareIsPathOrder(q, q);
  }

  /** The prefix test on names is "at or below" on paths. */
  lemma HasPrefixIsBelow(p: Path, q: Path)
    ensures HasPrefix(NameOf(p), NameOf(q)) <==> q <= p
  {
    var a, b := NameOf(p), NameOf(q);
    if q <= p {
      PrefixGivesTest(p, q);
    }
    if HasPrefix(a, b) && q != [] && p != [] {
      var l := PrefixSplits(p, |b|);
      CompareRendered(l, q);
      ListOrder(l, q);
      assert a == b + a[|b|..];
      RenderedPrefix(p, q, a[|b|..]);
    } else if q != [] && p == [] {
      assert |b| == 1 + |q[0]| + |Render(q[1..])| > |a|;
    }
  }

  lemma PrefixGivesTest(p: Path, q: Path)
    requires q <= p
    ensures HasPrefix(NameOf(p), NameOf(q))
  {
    var a, b := NameOf(p), NameOf(q);
    CompareIsPathOrder(q, q);
    if q == [] {
      assert a[..1] == b;
    } else {
      var rest := p[|q|..];
      assert p == q + rest;
      RenderAppend(q, rest);
      assert a == b + Render(rest);
      assert a[..|b|] == b;
    }
  }

  /** Moving a subtree rewrites the leading part of each name and keeps the rest of the string. */
  lemma RenamedName(from: Path, to: Path, suffix: Path)
    requires from != [] && to != []
    ensures NameOf(from) <= NameOf(from + suffix)
    ensures NameOf(to + suffix) == NameOf(to) + NameOf(from + suffix)[|NameOf(from)|..]
    ensures |NameOf(to + suffix)| == |NameOf(from + suffix)| - |NameOf(from)| + |NameOf(to)|
  {
    RenderAppend(to, suffix);
    RenderAppend(from, suffix);
  }
}
