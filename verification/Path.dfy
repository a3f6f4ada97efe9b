/** Paths (src/fs/new_vfs/path.rs): parsing, printing, appending and removing a prefix. */
module Paths {
  datatype Path = Path(isAbsolute: bool, isCurrent: bool, components: seq<string>)

  /** `split('/')` */
  function Split(s: string): (r: seq<string>)
    ensures |r| > 0
  {
    if s == "" then [""] else Before(s[0], Split(s[1..]))
  }

  /** The parts of a string with one more character in front. */
  function Before(c: char, r: seq<string>): (r': seq<string>)
    requires |r| > 0
    ensures |r'| > 0
  {
    if c == '/' then [""] + r else [[c] + r[0]] + r[1..]
  }

  /** One part of the path. */
  function Take(cs: seq<string>, part: string): seq<string> {
    if part == "" || part == "." then cs
    else if part == ".." then (if cs == [] then [] else cs[..|cs| - 1])
    else cs + [part]
  }

  function Fold(cs: seq<string>, parts: seq<string>): seq<string>
    decreases |parts|
  {
    if parts == [] then cs else Fold(Take(cs, parts[0]), parts[1..])
  }

  predicate StartsWithSlash(s: string) { s != "" && s[0] == '/' }

  function Parse(s: string): Path {
    var cs := Fold([], Split(s));
    Path(StartsWithSlash(s), s == "." || cs == [], cs)
  }

  function Join(cs: seq<string>): string {
    if cs == [] then "" else if |cs| == 1 then cs[0] else cs[0] + "/" + Join(cs[1..])
  }

  /** The `Debug` form, which `to_string` uses. */
  function Print(p: Path): string {
    (if p.isAbsolute then "/" else "") + Join(p.components)
  }

  function Append(a: Path, b: Path): Path {
    Path(a.isAbsolute, a.isCurrent && b.isCurrent, a.components + b.components)
  }

  /** `from_string` */
  method FromString(s: string) returns (p: Path)
    ensures p == Parse(s)
  {
    hide Split;
    var isAbsolute := s != "" && s[0] == '/';
    var isCurrent := s == ".";
    var components: seq<string> := [];
    var parts := Split(s);
    for i := 0 to |parts|
      invariant Fold([], parts) == Fold(components, parts[i..])
    {
      var part := parts[i];
      assert parts[i..][0] == part && parts[i..][1..] == parts[i + 1..];
      if part == "" || part == "." {
        continue;
      } else if part == ".." {
        if components != [] {
          components := components[..|components| - 1];
        }
      } else {
        components := components + [part];
      }
    }
    isCurrent := isCurrent || components == [];
    p := Path(isAbsolute, isCurrent, components);
  }

  /** `fmt` */
  method ToString(p: Path) returns (s: string)
    ensures s == Print(p)
  {
    hide Join;
    JoinNone();
    s := if p.isAbsolute then "/" else "";
    ghost var head := s;
    assert p.components[..0] == [] && s == head + "";
    for i := 0 to |p.components|
      invariant s == head + Join(p.components[..i])
    {
      JoinMore(p.components[..i], p.components[i]);
      assert p.components[..i] + [p.components[i]] == p.components[..i + 1];
      if i > 0 {
        s := s + "/";
      }
      s := s + p.components[i];
    }
    assert p.components[..|p.components|] == p.components;
  }

  method StartsWith(p: Path, prefix: Path) returns (r: bool)
    ensures r <==> prefix.components <= p.components
  {
    if |prefix.components| == 0 {
      return true;
    }
    if |prefix.components| > |p.components| {
      return false;
    }
    for i := 0 to |prefix.components|
      invariant prefix.components[..i] == p.components[..i]
    {
      if p.components[i] != prefix.components[i] {
        return false;
      }
    }
    r := true;
  }

  /** The source asserts that it is a prefix. Only the components change. */
  method WithoutPrefix(p: Path, prefix: Path) returns (r: Path)
    requires prefix.components <= p.components
    ensures r == p.(components := p.components[|prefix.components|..])
  {
    r := p;
    for i := 0 to |prefix.components|
      invariant r == p.(components := p.components[i..])
    {
      r := r.(components := r.components[1..]);
    }
  }

  lemma JoinNone()
    ensures Join([]) == ""
  {
  }

  lemma {:induction false} JoinMore(cs: seq<string>, c: string)
    ensures Join(cs + [c]) == (if cs == [] then c else Join(cs) + "/" + c)
  {
    if |cs| == 0 {
    } else {
      JoinMore(cs[1..], c);
      assert (cs + [c])[1..] == cs[1..] + [c];
      if |cs| > 1 {
        assert Join(cs) == cs[0] + "/" + Join(cs[1..]);
      }
    }
  }

  // ---- Splitting ----

  lemma {:induction false} SplitConcat(a: string, b: string)
    ensures Split(a + "/" + b) == Split(a) + Split(b)
  {
    var s := a + "/" + b;
    if a == "" {
      assert s[1..] == b;
    } else {
      hide Before;
      assert s[0] == a[0] && s[1..] == a[1..] + "/" + b;
      SplitConcat(a[1..], b);
      BeforeConcat(a[0], Split(a[1..]), Split(b));
    }
  }

  lemma BeforeConcat(c: char, r: seq<string>, q: seq<string>)
    requires |r| > 0
    ensures Before(c, r + q) == Before(c, r) + q
  {
    assert (r + q)[1..] == r[1..] + q;
  }

  lemma {:induction false} SplitPart(s: string)
    requires '/' !in s
    ensures Split(s) == [s]
  {
    if s == "" {
    } else {
      SplitPart(s[1..]);
      assert s == [s[0]] + s[1..];
    }
  }

  /** Parts that parsing keeps as they are. */
  predicate Plain(part: string) { part != "" && part != "." && part != ".." && '/' !in part }

  predicate AllPlain(cs: seq<string>) { forall i :: 0 <= i < |cs| ==> Plain(cs[i]) }

  lemma {:induction false} SplitJoin(cs: seq<string>)
    requires AllPlain(cs) && cs != []
    ensures Split(Join(cs)) == cs
  {
    SplitPart(cs[0]);
    if |cs| <= 1 {
    } else {
      SplitConcat(cs[0], Join(cs[1..]));
      SplitJoin(cs[1..]);
      assert cs == [cs[0]] + cs[1..];
    }
  }

  lemma {:induction false} NoSlash(s: string)
    ensures forall i :: 0 <= i < |Split(s)| ==> '/' !in Split(s)[i]
  {
    if s == "" {
    } else {
      NoSlash(s[1..]);
    }
  }

  // ---- Folding ----

  lemma {:induction false} FoldConcat(cs: seq<string>, p: seq<string>, q: seq<string>)
    ensures Fold(cs, p + q) == Fold(Fold(cs, p), q)
    decreases |p|
  {
    if p == [] {
      assert p + q == q;
    } else {
      assert (p + q)[1..] == p[1..] + q;
      FoldConcat(Take(cs, p[0]), p[1..], q);
    }
  }

  lemma {:induction false} FoldPlain(cs: seq<string>, parts: seq<string>)
    requires AllPlain(parts)
    ensures Fold(cs, parts) == cs + parts
    decreases |parts|
  {
    if parts == [] {
    } else {
      FoldPlain(cs + [parts[0]], parts[1..]);
      assert cs + parts == cs + [parts[0]] + parts[1..];
    }
  }

  lemma {:induction false} FoldIsPlain(cs: seq<string>, parts: seq<string>)
    requires AllPlain(cs) && forall i :: 0 <= i < |parts| ==> '/' !in parts[i]
    ensures AllPlain(Fold(cs, parts))
    decreases |parts|
  {
    if parts == [] {
    } else {
      FoldIsPlain(Take(cs, parts[0]), parts[1..]);
    }
  }

  /** The value of some string. */
  ghost predicate Parsed(p: Path) { exists s: string :: p == Parse(s) }

  lemma ParsedShape(p: Path)
    requires Parsed(p)
    ensures AllPlain(p.components) && (p.isCurrent <==> p.components == [])
  {
    var s :| p == Parse(s);
    NoSlash(s);
    FoldIsPlain([], Split(s));
    if s == "." {
      SplitPart(s);
      assert Fold([], ["."]) == Fold([], []);
    }
  }

  lemma JoinStart(cs: seq<string>)
    requires AllPlain(cs)
    ensures !StartsWithSlash(Join(cs)) && (Join(cs) == "" <==> cs == [])
    ensures Join(cs) != "." && Join(cs) != ".."
  {
    if cs != [] {
      assert Plain(cs[0]);
      assert cs[0][0] in cs[0];
      assert Join(cs)[0] == cs[0][0];
      if |cs| > 1 {
        var s := Join(cs);
        assert s == cs[0] + "/" + Join(cs[1..]);
        assert s[|cs[0]|] == '/';
        assert s != "." && s != "..";
      }
    }
  }

  /** Reparsing the printed form of a parsed path gives the same path. */
  lemma ParsePrint(p: Path)
    requires Parsed(p)
    ensures Parse(Print(p)) == p
  {
    ParsedShape(p);
    var cs := p.components;
    JoinStart(cs);
    var j := Join(cs);
    if cs != [] {
      SplitJoin(cs);
      FoldPlain([], cs);
      assert [] + cs == cs;
    } else {
      assert Fold([], [""]) == Fold([], []);
    }
    assert Fold([], Split(j)) == cs;
    if p.isAbsolute {
      assert "" + "/" + j == "/" + j;
      SplitConcat("", j);
      FoldConcat([], [""], Split(j));
      assert Fold([], [""]) == Fold([], []);
    } else {
      assert "" + j == j;
    }
  }

  /**
   The printed form of a parsed path holds its components and nothing else: between the slashes stand
   exactly the components, after the empty part before a leading slash if the path is absolute.
   */
  lemma PrintedParts(p: Path)
    requires Parsed(p)
    ensures p.components == [] ==> Print(p) == if p.isAbsolute then "/" else ""
    ensures p.components != [] ==> Split(Print(p)) == (if p.isAbsolute then [""] else []) + p.components
    ensures
      var parts := Split(Print(p));
      p.components != [] ==> forall i :: 0 <= i < |parts| ==> (parts[i] == "" <==> i == 0 && p.isAbsolute)
  {
    hide Split, Join, Parsed;
    ParsedShape(p);
    JoinNone();
    if p.components != [] {
      PrintedSplit(p);
    }
  }

  lemma PrintedSplit(p: Path)
    requires AllPlain(p.components) && p.components != []
    ensures Split(Print(p)) == (if p.isAbsolute then [""] else []) + p.components
  {
    hide Split, Join, AllPlain;
    var j := Join(p.components);
    SplitJoin(p.components);
    if p.isAbsolute {
      assert "" + "/" + j == "/" + j;
      SplitConcat("", j);
      SplitPart("");
    } else {
      assert "" + j == j;
      assert [] + p.components == p.components;
    }
  }

  // ---- Appending ----

  /** How many ".." of `parts` find nothing of their own to remove, with `depth` components at hand. */
  function Climbs(depth: nat, parts: seq<string>): nat
    decreases |parts|
  {
    if parts == [] then 0
    else if parts[0] == "" || parts[0] == "." then Climbs(depth, parts[1..])
    else if parts[0] == ".." then (if depth == 0 then 1 + Climbs(0, parts[1..]) else Climbs(depth - 1, parts[1..]))
    else Climbs(depth + 1, parts[1..])
  }

  function Left(cs: seq<string>, n: nat): seq<string> { if n <= |cs| then cs[..|cs| - n] else [] }

  lemma {:induction false} FoldClimbs(a: seq<string>, b: seq<string>, parts: seq<string>)
    ensures Fold(a + b, parts) == Left(a, Climbs(|b|, parts)) + Fold(b, parts)
    decreases |parts|
  {
    if parts == [] {
    } else {
      var part, rest := parts[0], parts[1..];
      if part == ".." && b == [] {
        assert a + b == a;
        var a' := if a == [] then [] else a[..|a| - 1];
        FoldClimbs(a', [], rest);
        assert a' + [] == a';
        assert Left(a', Climbs(0, rest)) == Left(a, 1 + Climbs(0, rest));
      } else {
        assert Take(a + b, part) == a + Take(b, part);
        FoldClimbs(a, Take(b, part), rest);
      }
    }
  }

  /**
   Appending two parsed strings agrees with parsing them joined by a slash if and only if the first
   string is not empty and the second does not climb out of it.
   */
  lemma AppendExact(a: string, b: string)
    ensures Parse(a + "/" + b) == Append(Parse(a), Parse(b)) <==>
            a != "" && (Parse(a).components == [] || Climbs(0, Split(b)) == 0)
  {
    var s := a + "/" + b;
    var ca, cb := Parse(a).components, Parse(b).components;
    var n := Climbs(0, Split(b));
    SplitConcat(a, b);
    FoldConcat([], Split(a), Split(b));
    FoldClimbs(ca, [], Split(b));
    assert ca + [] == ca;
    assert Parse(s).components == Left(ca, n) + cb;
    assert s != "." by {
      assert s[|a|] == '/';
    }
    assert StartsWithSlash(s) <==> StartsWithSlash(a) || a == "";
    DotIsEmpty(a);
    DotIsEmpty(b);
    if ca == [] || n == 0 {
      assert Left(ca, n) == ca;
    } else {
      assert |Left(ca, n) + cb| < |ca + cb|;
    }
  }

  lemma ParsePart(s: string)
    requires Plain(s) && !StartsWithSlash(s)
    ensures Parse(s) == Path(false, false, [s]) && Parse("/" + s) == Path(true, false, [s])
  {
    SplitPart(s);
    FoldPlain([], [s]);
    assert [] + [s] == [s];
    assert "" + "/" + s == "/" + s;
    SplitConcat("", s);
    FoldConcat([], [""], [s]);
    assert Fold([], [""]) == Fold([], []);
  }

  /** Appending ".." to "x" keeps both components, but "x/.." has none. */
  lemma AppendClimbs()
    ensures Parse("x" + "/" + "..") != Append(Parse("x"), Parse(".."))
  {
    ParsePart("x");
    SplitPart("..");
    assert Climbs(0, [".."]) == 1 + Climbs(0, []);
    AppendExact("x", "..");
  }

  lemma DotIsEmpty(s: string)
    ensures s == "." ==> Parse(s).components == []
  {
    if s == "." {
      SplitPart(s);
      assert Fold([], ["."]) == Fold([], []);
    }
  }

  /** For parsed paths and their printed forms, only the empty relative path is an exception. */
  lemma AppendPrinted(a: Path, b: Path)
    requires Parsed(a) && Parsed(b)
    ensures Parse(Print(a) + "/" + Print(b)) == Append(a, b) <==> a.isAbsolute || a.components != []
  {
    ParsePrint(a);
    ParsePrint(b);
    ParsedShape(a);
    ParsedShape(b);
    JoinStart(a.components);
    PlainClimbs(b);
    AppendExact(Print(a), Print(b));
  }

  /** The empty path prints as nothing, and the slash after it makes the whole path absolute. */
  lemma AppendToEmpty()
    ensures Parsed(Parse("")) && Parsed(Parse("b"))
    ensures Parse(Print(Parse("")) + "/" + Print(Parse("b"))) != Append(Parse(""), Parse("b"))
  {
    assert Fold([], [""]) == Fold([], []);
    AppendPrinted(Parse(""), Parse("b"));
  }

  lemma PlainClimbs(p: Path)
    requires AllPlain(p.components)
    ensures Climbs(0, Split(Print(p))) == 0
  {
    hide Split, Join, Climbs, AllPlain;
    var j := Join(p.components);
    JoinClimbs(p.components);
    if p.isAbsolute {
      assert "" + "/" + j == "/" + j;
      SplitConcat("", j);
      SplitPart("");
      SkipEmpty(Split(j));
    } else {
      assert "" + j == j;
    }
  }

  lemma JoinClimbs(cs: seq<string>)
    requires AllPlain(cs)
    ensures Climbs(0, Split(Join(cs))) == 0
  {
    if cs == [] {
      assert [""] + [] == [""];
      SkipEmpty([]);
    } else {
      SplitJoin(cs);
      NoClimbs(0, cs);
    }
  }

  lemma SkipEmpty(parts: seq<string>)
    ensures Climbs(0, [""] + parts) == Climbs(0, parts)
  {
    assert ([""] + parts)[1..] == parts;
  }

  lemma {:induction false} NoClimbs(depth: nat, parts: seq<string>)
    requires AllPlain(parts)
    ensures Climbs(depth, parts) == 0
    decreases |parts|
  {
    if parts == [] {
    } else {
      NoClimbs(depth + 1, parts[1..]);
    }
  }

  /** Removing the prefix again leaves the appended components, but not always the two flags. */
  method AppendThenRemove(a: Path, b: Path) returns (r: Path)
    ensures r == Path(a.isAbsolute, a.isCurrent && b.isCurrent, b.components)
    ensures r == b <==> a.isAbsolute == b.isAbsolute && (b.isCurrent ==> a.isCurrent)
  {
    var ab := Append(a, b);
    var ok := StartsWith(ab, a);
    assert ok;
    r := WithoutPrefix(ab, a);
  }

  /** "b" appended to "/a" comes back as "/b". */
  method RemoveKeepsSlash() returns (r: Path)
    ensures r != Parse("b") && r == Parse("/" + "b")
  {
    var a, b := Parse("/a"), Parse("b");
    ParsePart("a");
    ParsePart("b");
    assert "/" + "a" == "/a";
    r := AppendThenRemove(a, b);
  }
}
