/**
 * Go's `path/filepath` on Unix paths, as far as the MetaImage reader and writer use it:
 * `Clean`, `Dir` and `Join` of two elements, plus the final element of a path.
 */
module FilePaths {
  import opened Results
  import opened Text

  /** The position of the last `c` in `s`. */
  function LastIndex(s: string, c: char): (r: Option<nat>)
    ensures r.None? <==> c !in s
    ensures r.Some? ==> r.value < |s| && s[r.value] == c && c !in s[r.value + 1..]
  {
    if s == [] then None
    else if s[|s| - 1] == c then Some(|s| - 1)
    else
      var r := LastIndex(s[..|s| - 1], c);
      assert r.Some? ==> s[r.value + 1..] == s[..|s| - 1][r.value + 1..] + [s[|s| - 1]];
      assert r.None? ==> s == s[..|s| - 1] + [s[|s| - 1]];
      r
  }

  /** One element of `filepath.Clean`'s scan: skip empty and `.` elements, let `..` remove the previous name. */
  function Step(names: seq<string>, c: string, rooted: bool): seq<string>
  {
    if c == "" || c == "." then names
    else if c == ".." then
      if |names| > 0 && names[|names| - 1] != ".." then names[..|names| - 1]
      else if rooted then names
      else names + [".."]
    else names + [c]
  }

  /** The names left after scanning the elements `cs` from left to right. */
  function Resolve(cs: seq<string>, rooted: bool): seq<string>
  {
    if cs == [] then [] else Step(Resolve(cs[..|cs| - 1], rooted), cs[|cs| - 1], rooted)
  }

  /** `filepath.Clean`: the shortest path naming the same file by purely lexical processing. */
  function Clean(p: string): string
  {
    if p == [] then "."
    else
      var rooted := p[0] == '/';
      var names := Resolve(Split(p, '/'), rooted);
      if names == [] then (if rooted then "/" else ".")
      else (if rooted then "/" else "") + Join(names, '/')
  }

  /** `filepath.Dir`: all but the last element, cleaned; `.` when there is no separator. */
  function Dir(p: string): string
  {
    match LastIndex(p, '/')
    case None => Clean([])
    case Some(i) => Clean(p[..i + 1])
  }

  /** `filepath.Join` of two elements: empty elements are ignored and the result is cleaned. */
  function JoinPath(a: string, b: string): string
  {
    if a != [] then Clean(a + "/" + b)
    else if b != [] then Clean(b)
    else []
  }

  /** The final element of a path that does not end in a separator. */
  function BaseName(p: string): (b: string)
    ensures '/' !in b
  {
    match LastIndex(p, '/')
    case None => p
    case Some(i) => p[i + 1..]
  }

  /** A path element that `Clean` keeps as it is. */
  predicate Name(c: string)
  {
    c != [] && '/' !in c && c != "." && c != ".."
  }

  predicate AllNames(cs: seq<string>)
  {
    forall k :: 0 <= k < |cs| ==> Name(cs[k])
  }

  /** A relative or rooted path of plain names separated by single separators: `Clean` leaves it as it is. */
  predicate Canonical(d: string)
  {
    AllNames(Split(d, '/')) || (|d| > 0 && d[0] == '/' && AllNames(Split(d[1..], '/')))
  }

  /** The path of `name` in directory `d`, `.` standing for the working directory. */
  function Within(d: string, name: string): string
  {
    if d == "." then name else d + "/" + name
  }

  // ---------------------------------------------------------------------------
  // Properties
  // ---------------------------------------------------------------------------

  lemma {:induction false} ResolveOfNames(cs: seq<string>, rooted: bool)
    requires AllNames(cs)
    ensures Resolve(cs, rooted) == cs
  {
    if cs != [] {
      ResolveOfNames(cs[..|cs| - 1], rooted);
      assert cs[..|cs| - 1] + [cs[|cs| - 1]] == cs;
    }
  }

  /** An empty or `.` element in front changes nothing. */
  lemma {:induction false} ResolveSkips(c: string, cs: seq<string>, rooted: bool)
    requires c == "" || c == "."
    ensures Resolve([c] + cs, rooted) == Resolve(cs, rooted)
  {
    if cs != [] {
      var init := cs[..|cs| - 1];
      ResolveSkips(c, init, rooted);
      assert ([c] + cs)[..|[c] + cs| - 1] == [c] + init;
    } else {
      assert Resolve([c], rooted) == Step(Resolve([], rooted), c, rooted);
    }
  }

  /** A separator at the end adds an empty element. */
  lemma SplitWithSeparator(p: string)
    ensures Split(p + "/", '/') == Split(p, '/') + [[]]
  {
    SplitAppendPiece(p, '/', []);
    assert p + ['/'] + [] == p + "/";
  }

  lemma {:induction false} SplitAppendPiece(p: string, sep: char, b: string)
    requires sep !in b
    ensures Split(p + [sep] + b, sep) == Split(p, sep) + [b]
  {
    if p == [] {
      assert p + [sep] + b == [sep] + b;
      assert ([sep] + b)[1..] == b;
      SplitOfPiece(b, sep);
    } else {
      assert (p + [sep] + b)[1..] == p[1..] + [sep] + b;
      SplitAppendPiece(p[1..], sep, b);
    }
  }

  /** A path that is empty or starts with a separator has an empty first element. */
  lemma EmptyFirstPart(d: string)
    ensures d == [] || d[0] == '/' ==> Split(d, '/')[0] == []
  {
  }

  lemma CanonicalNonEmpty(d: string)
    requires Canonical(d)
    ensures d != []
  {
    assert !AllNames(Split([], '/')) by {
      assert Split([], '/')[0] == [];
    }
  }

  /** The last separator of `d + "/" + b` is the one in the middle. */
  lemma LastSeparatorOfChild(d: string, b: string)
    requires '/' !in b
    ensures LastIndex(d + "/" + b, '/') == Some(|d|)
  {
    var p := d + "/" + b;
    assert p[|d|] == '/' && p[|d| + 1..] == b;
    var i := LastIndex(p, '/').value;
    assert p[|d|] in p[i..];
    assert forall k :: |d| < k < |p| ==> p[k] == b[k - |d| - 1];
  }

  lemma CleanOfCanonical(d: string)
    requires Canonical(d)
    ensures Clean(d) == d
  {
    var parts := Split(d, '/');
    if AllNames(parts) {
      EmptyFirstPart(d);
      ResolveOfNames(parts, false);
      JoinOfSplit(d, '/');
    } else {
      var rest := Split(d[1..], '/');
      assert parts == [[]] + rest;
      ResolveSkips("", rest, true);
      ResolveOfNames(rest, true);
      JoinOfSplit(d[1..], '/');
    }
  }

  /** A canonical path stays canonical when a name is appended. */
  lemma CanonicalChild(d: string, b: string)
    requires Canonical(d) && Name(b)
    ensures Canonical(d + "/" + b)
  {
    var p := d + "/" + b;
    assert p == d + ['/'] + b;
    SplitAppendPiece(d, '/', b);
    if !AllNames(Split(d, '/')) {
      assert p[1..] == d[1..] + ['/'] + b;
      SplitAppendPiece(d[1..], '/', b);
    }
  }

  /** The directory of a name inside a canonical directory is that directory. */
  lemma DirOfChild(d: string, b: string)
    requires Canonical(d) && Name(b)
    ensures Dir(d + "/" + b) == d
  {
    var p := d + "/" + b;
    assert p[|d|] == '/';
    assert p[|d| + 1..] == b;
    LastSeparatorOfChild(d, b);
    assert p[..|d| + 1] == d + "/";
    SplitWithSeparator(d);
    var parts := Split(d, '/');
    CleanOfCanonical(d);
    CanonicalNonEmpty(d);
    assert (d + "/")[0] == d[0];
    assert Resolve(parts + [[]], d[0] == '/') == Resolve(parts, d[0] == '/') by {
      assert (parts + [[]])[..|parts|] == parts;
    }
  }

  /** Joining a canonical directory and a name puts one separator between them. */
  lemma JoinOfChild(d: string, b: string)
    requires Canonical(d) && Name(b)
    ensures JoinPath(d, b) == d + "/" + b
  {
    CanonicalNonEmpty(d);
    CanonicalChild(d, b);
    CleanOfCanonical(d + "/" + b);
  }

  /** A bare name lies in the working directory and joins back to itself. */
  lemma DirAndJoinOfName(b: string)
    requires Name(b)
    ensures Dir(b) == "." && JoinPath(".", b) == b
  {
    var p := "./" + b;
    assert "." + "/" + b == p;
    assert p == "." + ['/'] + b;
    SplitAfterPiece(".", '/', b);
    SplitOfPiece(b, '/');
    ResolveSkips(".", [b], false);
    assert Resolve([b], false) == [b] by {
      ResolveOfNames([b], false);
    }
  }

  /** `Dir` and `JoinPath` take `Within(d, b)` apart and put it back together. */
  lemma DirAndJoinWithin(d: string, b: string)
    requires (d == "." || Canonical(d)) && Name(b)
    ensures Dir(Within(d, b)) == d && BaseName(Within(d, b)) == b
    ensures JoinPath(d, b) == Within(d, b)
  {
    if d == "." {
      DirAndJoinOfName(b);
    } else {
      DirOfChild(d, b);
      JoinOfChild(d, b);
      var p := d + "/" + b;
      assert p[|d|] == '/' && p[|d| + 1..] == b;
      LastSeparatorOfChild(d, b);
    }
  }
}
