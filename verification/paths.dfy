/**
  Filesystem paths as a Unix `PathBuf`/`OsStr` holds them: an arbitrary byte string.
  A path is modelled already split the way a UTF-8 chunk decoder sees it: valid
  characters, and stray bytes that belong to no valid UTF-8 sequence.
 */
module Paths {
  import opened Wrappers

  type Byte = b: int | 0 <= b < 256

  /** One decoded piece of a path: a Unicode scalar value, or an invalid byte. */
  datatype Unit = Char(c: char) | Raw(b: Byte)

  datatype Path = Path(units: seq<Unit>)

  /** The path is valid UTF-8, so `Path::to_str` has a string form for it. */
  predicate Representable(p: Path) {
    forall i :: 0 <= i < |p.units| ==> p.units[i].Char?
  }

  /** `Path::to_str`: the string form of a valid UTF-8 path, and `None` otherwise. */
  function ToStr(p: Path): (r: Option<string>)
    ensures r.Some? <==> Representable(p)
    ensures r.Some? ==> |r.value| == |p.units|
    ensures r.Some? ==> forall i :: 0 <= i < |p.units| ==> p.units[i] == Char(r.value[i])
  {
    if Representable(p) then
      Some(seq(|p.units|, i requires 0 <= i < |p.units| && p.units[i].Char? => p.units[i].c))
    else
      None
  }

  /** `PathBuf::from(String)`: total, every character becomes one unit. */
  function FromString(s: string): (p: Path)
    ensures Representable(p)
    ensures |p.units| == |s|
  {
    Path(seq(|s|, i requires 0 <= i < |s| => Char(s[i])))
  }

  /** `PathBuf::from(Option<String>)` as `Option::map` applies it. */
  function FromOptionalString(o: Option<string>): (r: Option<Path>)
    ensures r.Some? <==> o.Some?
  {
    match o
    case None => None
    case Some(s) => Some(FromString(s))
  }

  /** A path built from a string gives that string back. */
  lemma ToStrFromString(s: string)
    ensures ToStr(FromString(s)) == Some(s)
  {
    var p := FromString(s);
    assert ToStr(p).value == s;
  }

  /** A representable path is rebuilt exactly from its string form. */
  lemma FromStringToStr(p: Path)
    requires Representable(p)
    ensures FromString(ToStr(p).value) == p
  {
    assert FromString(ToStr(p).value).units == p.units;
  }

  /** The separator of a Unix path. */
  const Separator := Char('/')

  /** The names `.` and `..`. */
  const Dot := [Char('.')]
  const DotDot := [Char('.'), Char('.')]

  /** One item of `Path::components` on Unix. */
  datatype Component = RootDir | CurDir | ParentDir | Normal(name: seq<Unit>)

  /** No piece holds a separator. */
  predicate Pieces(segs: seq<seq<Unit>>) {
    forall k :: 0 <= k < |segs| ==> Separator !in segs[k]
  }

  /** The pieces between separators, in order; a path with `n` separators has `n + 1` of them. */
  function Segments(us: seq<Unit>): (segs: seq<seq<Unit>>)
    ensures |segs| > 0
    ensures Pieces(segs)
    decreases |us|
  {
    if |us| == 0 then [[]]
    else
      var rest := Segments(us[1..]);
      if us[0] == Separator then [[]] + rest
      else [[us[0]] + rest[0]] + rest[1..]
  }

  /** The pieces put back together with one separator between neighbours. */
  function JoinSegments(segs: seq<seq<Unit>>): seq<Unit>
    decreases |segs|
  {
    if |segs| == 0 then []
    else if |segs| == 1 then segs[0]
    else segs[0] + [Separator] + JoinSegments(segs[1..])
  }

  /** Splitting at the separators loses nothing: the pieces rejoin to the path. */
  lemma {:induction false} JoinSegmentsOfSegments(us: seq<Unit>)
    ensures JoinSegments(Segments(us)) == us
    decreases |us|
  {
    if |us| > 0 {
      var rest := Segments(us[1..]);
      JoinSegmentsOfSegments(us[1..]);
      if us[0] == Separator {
        assert ([[]] + rest)[1..] == rest;
      } else if |rest| > 1 {
        var segs := [[us[0]] + rest[0]] + rest[1..];
        assert segs[1..] == rest[1..];
        assert JoinSegments(rest) == rest[0] + [Separator] + JoinSegments(rest[1..]);
      }
    }
  }

  /**
    The component a piece between separators contributes: none for an empty piece or
    `.`, `ParentDir` for `..`, and otherwise the piece as a name.
   */
  function ComponentOf(seg: seq<Unit>): (cs: seq<Component>)
    ensures |cs| <= 1
    ensures |cs| == 1 <==> seg != [] && seg != Dot
  {
    if seg == [] || seg == Dot then []
    else if seg == DotDot then [ParentDir]
    else [Normal(seg)]
  }

  /** A name a `Normal` component can carry: one non-empty piece other than `.` and `..`. */
  predicate ProperName(n: seq<Unit>) {
    n != [] && n != Dot && n != DotDot && Separator !in n
  }

  /** Components that may follow the first: parent references and proper names. */
  predicate Proper(cs: seq<Component>) {
    forall k :: 0 <= k < |cs| ==> cs[k].ParentDir? || (cs[k].Normal? && ProperName(cs[k].name))
  }

  /** The shape `Components` gives: a root or `.` only first, and every name proper. */
  predicate WellFormed(cs: seq<Component>) {
    (forall k :: 0 < k < |cs| ==> cs[k].Normal? || cs[k].ParentDir?)
    && (forall k :: 0 <= k < |cs| && cs[k].Normal? ==> ProperName(cs[k].name))
  }

  /** The components the pieces contribute after the first. */
  function Normals(segs: seq<seq<Unit>>): (cs: seq<Component>)
    requires Pieces(segs)
    ensures Proper(cs)
    decreases |segs|
  {
    if |segs| == 0 then [] else ComponentOf(segs[0]) + Normals(segs[1..])
  }

  /**
    `Path::components` on Unix: `RootDir` for a leading separator, `CurDir` for a leading
    `.` piece of a relative path, then one component per remaining piece, with empty
    pieces and `.` pieces dropped.
   */
  function Components(p: Path): (cs: seq<Component>)
    ensures (|cs| > 0 && cs[0] == RootDir) <==> (|p.units| > 0 && p.units[0] == Separator)
    ensures WellFormed(cs)
  {
    PiecesComponents(Rooted(p.units), Segments(p.units))
  }

  /** The path starts at the root. */
  predicate Rooted(us: seq<Unit>) {
    |us| > 0 && us[0] == Separator
  }

  /** The components of a path split into `segs`, given whether it starts at the root. */
  function PiecesComponents(rooted: bool, segs: seq<seq<Unit>>): (cs: seq<Component>)
    requires |segs| > 0 && Pieces(segs)
  {
    if rooted then [RootDir] + Normals(segs)
    else if segs[0] == Dot then [CurDir] + Normals(segs[1..])
    else Normals(segs)
  }

  /** `PathBuf`'s `==`: the two paths have the same components. */
  predicate SamePath(p: Path, q: Path) {
    Components(p) == Components(q)
  }

  /** A separator after the last piece adds an empty piece. */
  lemma {:induction false} SegmentsSnocSeparator(us: seq<Unit>)
    ensures Segments(us + [Separator]) == Segments(us) + [[]]
    decreases |us|
  {
    if |us| > 0 {
      assert (us + [Separator])[1..] == us[1..] + [Separator];
      SegmentsSnocSeparator(us[1..]);
    }
  }

  /** An empty last piece contributes no component. */
  lemma {:induction false} NormalsSnocEmpty(segs: seq<seq<Unit>>)
    requires Pieces(segs)
    ensures Normals(segs + [[]]) == Normals(segs)
    decreases |segs|
  {
    if |segs| > 0 {
      assert (segs + [[]])[1..] == segs[1..] + [[]];
      NormalsSnocEmpty(segs[1..]);
    }
  }

  /** A trailing separator does not change a non-empty path: `a/b/` and `a/b` compare equal. */
  lemma ComponentsIgnoreTrailingSeparator(us: seq<Unit>)
    requires |us| > 0
    ensures SamePath(Path(us + [Separator]), Path(us))
  {
    var segs := Segments(us);
    SegmentsSnocSeparator(us);
    NormalsSnocEmpty(segs);
    assert (segs + [[]])[0] == segs[0];
    assert (segs + [[]])[1..] == segs[1..] + [[]];
    NormalsSnocEmpty(segs[1..]);
  }

  /** Splitting at a separator: the pieces of the text before it, then those of the text after it. */
  lemma {:induction false} SegmentsOfConcat(u: seq<Unit>, v: seq<Unit>)
    ensures Segments(u + [Separator] + v) == Segments(u) + Segments(v)
    decreases |u|
  {
    var w := u + [Separator] + v;
    if |u| == 0 {
      assert w == [Separator] + v && w[1..] == v;
    } else {
      assert w[0] == u[0] && w[1..] == u[1..] + [Separator] + v;
      SegmentsOfConcat(u[1..], v);
      var rest := Segments(u[1..]);
      if u[0] != Separator {
        assert (rest + Segments(v))[0] == rest[0];
        assert (rest + Segments(v))[1..] == rest[1..] + Segments(v);
      }
    }
  }

  /** A text without separators is a single piece. */
  lemma {:induction false} SegmentsOfPiece(seg: seq<Unit>)
    requires Separator !in seg
    ensures Segments(seg) == [seg]
    decreases |seg|
  {
    if |seg| > 0 {
      SegmentsOfPiece(seg[1..]);
      assert [seg[0]] + seg[1..] == seg;
    }
  }

  /** Splitting undoes joining, for pieces without separators. */
  lemma {:induction false} SegmentsOfJoin(segs: seq<seq<Unit>>)
    requires |segs| > 0
    requires Pieces(segs)
    ensures Segments(JoinSegments(segs)) == segs
    decreases |segs|
  {
    SegmentsOfPiece(segs[0]);
    if |segs| == 1 {
      assert segs == [segs[0]];
    } else {
      SegmentsOfJoin(segs[1..]);
      SegmentsOfConcat(segs[0], JoinSegments(segs[1..]));
      assert [segs[0]] + segs[1..] == segs;
    }
  }

  /** The components of pieces laid end to end are those of each part, in order. */
  lemma {:induction false} NormalsOfConcat(a: seq<seq<Unit>>, b: seq<seq<Unit>>)
    requires Pieces(a)
    requires Pieces(b)
    ensures Pieces(a + b)
    ensures Normals(a + b) == Normals(a) + Normals(b)
    decreases |a|
  {
    if |a| == 0 {
      assert a + b == b;
    } else {
      assert (a + b)[0] == a[0] && (a + b)[1..] == a[1..] + b;
      NormalsOfConcat(a[1..], b);
    }
  }

  /** Splitting `u/w/v`: the pieces of `u`, then `w`, then the pieces of `v`. */
  lemma SegmentsAroundPiece(u: seq<Unit>, w: seq<Unit>, v: seq<Unit>)
    requires Separator !in w
    ensures Segments(u + [Separator] + w + [Separator] + v) == Segments(u) + ([w] + Segments(v))
  {
    assert u + [Separator] + w + [Separator] + v == u + [Separator] + (w + [Separator] + v);
    SegmentsOfConcat(u, w + [Separator] + v);
    SegmentsOfConcat(w, v);
    SegmentsOfPiece(w);
  }

  /** An empty or `.` piece contributes no component, wherever it stands. */
  lemma NormalsDropPiece(a: seq<seq<Unit>>, w: seq<Unit>, b: seq<seq<Unit>>)
    requires w == [] || w == Dot
    requires Pieces(a) && Pieces(b)
    ensures Pieces(a + ([w] + b)) && Pieces(a + b)
    ensures Normals(a + ([w] + b)) == Normals(a + b)
  {
    assert Normals([w]) == [];
    NormalsOfConcat([w], b);
    assert Normals([w] + b) == Normals(b);
    NormalsOfConcat(a, [w] + b);
    NormalsOfConcat(a, b);
  }

  /** An empty or `.` piece after the first contributes no component. */
  lemma {:induction false} PiecesDropPiece(rooted: bool, a: seq<seq<Unit>>, w: seq<Unit>, b: seq<seq<Unit>>)
    requires |a| > 0
    requires w == [] || w == Dot
    requires Pieces(a)
    requires Pieces(b)
    ensures Pieces(a + ([w] + b))
    ensures Pieces(a + b)
    ensures PiecesComponents(rooted, a + ([w] + b)) == PiecesComponents(rooted, a + b)
  {
    NormalsDropPiece(a, w, b);
    NormalsDropPiece(a[1..], w, b);
    assert (a + ([w] + b))[0] == a[0] && (a + b)[0] == a[0];
    assert (a + ([w] + b))[1..] == a[1..] + ([w] + b);
    assert (a + b)[1..] == a[1..] + b;
  }

  /**
    An empty or `.` piece between two separators contributes no component, wherever it
    stands: `u//v` and `u/./v` are the same path as `u/v`.
   */
  lemma {:induction false} DropsPieceWithoutComponent(u: seq<Unit>, w: seq<Unit>, v: seq<Unit>)
    requires w == [] || w == Dot
    ensures SamePath(Path(u + [Separator] + w + [Separator] + v), Path(u + [Separator] + v))
  {
    var long := u + [Separator] + w + [Separator] + v;
    var short := u + [Separator] + v;
    SegmentsAroundPiece(u, w, v);
    SegmentsOfConcat(u, v);
    assert Rooted(long) == Rooted(short);
    PiecesDropPiece(Rooted(long), Segments(u), w, Segments(v));
  }

  /** Any run of two separators counts as one: `u//v` is the same path as `u/v`. */
  lemma RepeatedSeparatorIsSamePath(u: seq<Unit>, v: seq<Unit>)
    ensures SamePath(Path(u + [Separator, Separator] + v), Path(u + [Separator] + v))
  {
    DropsPieceWithoutComponent(u, [], v);
    assert u + [Separator] + [] + [Separator] + v == u + [Separator, Separator] + v;
  }

  /** A `.` piece after a separator is dropped: `u/./v` is the same path as `u/v`. */
  lemma InteriorCurDirIsSamePath(u: seq<Unit>, v: seq<Unit>)
    ensures SamePath(Path(u + [Separator] + Dot + [Separator] + v), Path(u + [Separator] + v))
  {
    DropsPieceWithoutComponent(u, Dot, v);
  }

  /** The text of one component; a root is written by `Render` itself. */
  function Name(c: Component): seq<Unit> {
    match c
    case RootDir => []
    case CurDir => Dot
    case ParentDir => DotDot
    case Normal(n) => n
  }

  function Names(cs: seq<Component>): (names: seq<seq<Unit>>)
    ensures |names| == |cs| && forall k :: 0 <= k < |cs| ==> names[k] == Name(cs[k])
  {
    seq(|cs|, k requires 0 <= k < |cs| => Name(cs[k]))
  }

  /** The pieces that name something: all but the empty and `.` pieces, in order. */
  function KeptPieces(segs: seq<seq<Unit>>): seq<seq<Unit>>
    decreases |segs|
  {
    if |segs| == 0 then []
    else (if segs[0] == [] || segs[0] == Dot then [] else [segs[0]]) + KeptPieces(segs[1..])
  }

  /** The components after the first name exactly the kept pieces, in order. */
  lemma {:induction false} NormalsKeepPieces(segs: seq<seq<Unit>>)
    requires Pieces(segs)
    ensures Names(Normals(segs)) == KeptPieces(segs)
    decreases |segs|
  {
    if |segs| > 0 {
      NormalsKeepPieces(segs[1..]);
      var head, tail := ComponentOf(segs[0]), Normals(segs[1..]);
      assert Names(head) == (if segs[0] == [] || segs[0] == Dot then [] else [segs[0]]);
      assert Names(head + tail) == Names(head) + Names(tail);
    }
  }

  /** The text of a component list, as collecting it into a `PathBuf` writes it: the root, then the names with one separator between neighbours. */
  function Render(cs: seq<Component>): seq<Unit> {
    if |cs| > 0 && cs[0] == RootDir then [Separator] + JoinSegments(Names(cs[1..]))
    else JoinSegments(Names(cs))
  }

  /** Names of parent references and proper names read back as those components. */
  lemma {:induction false} NormalsOfNames(cs: seq<Component>)
    requires Proper(cs)
    ensures Pieces(Names(cs))
    ensures Normals(Names(cs)) == cs
    decreases |cs|
  {
    if |cs| > 0 {
      assert ComponentOf(Name(cs[0])) == [cs[0]];
      assert Names(cs)[1..] == Names(cs[1..]);
      NormalsOfNames(cs[1..]);
      assert [cs[0]] + cs[1..] == cs;
    }
  }

  /** A joined text starts with its first piece. */
  lemma JoinSegmentsStartsWith(segs: seq<seq<Unit>>)
    requires |segs| > 0 && |segs[0]| > 0
    ensures |JoinSegments(segs)| > 0 && JoinSegments(segs)[0] == segs[0][0]
  {
  }

  /** Rendering loses nothing: the rendered text has exactly the components rendered. */
  lemma {:induction false} ComponentsOfRender(cs: seq<Component>)
    requires WellFormed(cs)
    ensures Components(Path(Render(cs))) == cs
  {
    if |cs| > 0 && cs[0] == RootDir {
      RenderRooted(cs);
    } else if |cs| > 0 {
      RenderRelative(cs);
    }
  }

  lemma {:induction false} RenderRooted(cs: seq<Component>)
    requires |cs| > 0 && cs[0] == RootDir && WellFormed(cs)
    ensures Components(Path(Render(cs))) == cs
  {
    var rest := cs[1..];
    assert Proper(rest);
    var j := JoinSegments(Names(rest));
    SegmentsOfConcat([], j);
    assert [] + [Separator] + j == [Separator] + j;
    var segs := Segments([Separator] + j);
    assert segs == [[]] + Segments(j);
    NormalsOfNames(rest);
    if |rest| > 0 {
      SegmentsOfJoin(Names(rest));
    }
    assert Normals([[]]) == [];
    NormalsOfConcat([[]], Segments(j));
    assert Normals(segs) == rest;
    assert Rooted([Separator] + j);
    assert [RootDir] + rest == cs;
  }

  lemma {:induction false} RenderRelative(cs: seq<Component>)
    requires |cs| > 0 && cs[0] != RootDir && WellFormed(cs)
    ensures Components(Path(Render(cs))) == cs
  {
    var names := Names(cs);
    assert Proper(cs[1..]);
    NormalsOfNames(cs[1..]);
    assert names == [Name(cs[0])] + Names(cs[1..]);
    assert Pieces(names);
    SegmentsOfJoin(names);
    JoinSegmentsStartsWith(names);
    assert !Rooted(JoinSegments(names));
    assert names[1..] == Names(cs[1..]);
    assert [cs[0]] + cs[1..] == cs;
    if cs[0] != CurDir {
      assert ComponentOf(names[0]) == [cs[0]];
      assert Normals(names) == [cs[0]] + Normals(names[1..]);
    }
  }

  /** The normal form of a path: its components rendered back to text. */
  function Normalized(p: Path): Path {
    Path(Render(Components(p)))
  }

  /** Two paths compare equal exactly when their normal forms are the same text. */
  lemma SamePathIffNormalized(p: Path, q: Path)
    ensures SamePath(p, q) <==> Normalized(p) == Normalized(q)
  {
    ComponentsOfRender(Components(p));
    ComponentsOfRender(Components(q));
  }

  /** A path and its normal form compare equal. */
  lemma NormalizedIsSamePath(p: Path)
    ensures SamePath(Normalized(p), p)
  {
    ComponentsOfRender(Components(p));
  }

  /**
    The normal form written out from the text: the root or a leading `.`, then the pieces
    of the path in order with the empty and `.` pieces dropped, one separator between
    neighbours.
   */
  lemma {:induction false} NormalizedKeepsPieces(p: Path)
    ensures var segs := Segments(p.units);
            Normalized(p).units ==
              if |p.units| > 0 && p.units[0] == Separator then [Separator] + JoinSegments(KeptPieces(segs))
              else if segs[0] == Dot then JoinSegments([Dot] + KeptPieces(segs[1..]))
              else JoinSegments(KeptPieces(segs))
  {
    RenderKeepsPieces(Rooted(p.units), Segments(p.units));
  }

  lemma {:induction false} RenderKeepsPieces(rooted: bool, segs: seq<seq<Unit>>)
    requires |segs| > 0 && Pieces(segs)
    ensures Render(PiecesComponents(rooted, segs)) ==
              if rooted then [Separator] + JoinSegments(KeptPieces(segs))
              else if segs[0] == Dot then JoinSegments([Dot] + KeptPieces(segs[1..]))
              else JoinSegments(KeptPieces(segs))
  {
    var cs := PiecesComponents(rooted, segs);
    if rooted {
      NormalsKeepPieces(segs);
      assert cs[1..] == Normals(segs);
    } else if segs[0] == Dot {
      NormalsKeepPieces(segs[1..]);
      assert Names(cs) == [Dot] + Names(Normals(segs[1..]));
    } else {
      NormalsKeepPieces(segs);
      assert |cs| > 0 ==> cs[0] != RootDir;
    }
  }

  /** `a//b` and `a/b` are the same path although their texts differ. */
  lemma DoubledSeparatorIsSamePath()
    ensures var a, b := Char('a'), Char('b');
            SamePath(Path([a, Separator, Separator, b]), Path([a, Separator, b]))
            && Path([a, Separator, Separator, b]) != Path([a, Separator, b])
  {
    var a, b := Char('a'), Char('b');
    RepeatedSeparatorIsSamePath([a], [b]);
    assert [a] + [Separator, Separator] + [b] == [a, Separator, Separator, b];
    assert [a] + [Separator] + [b] == [a, Separator, b];
    assert |[a, Separator, Separator, b]| != |[a, Separator, b]|;
  }

  /** A leading `.` is kept as a component: `./a` is not the same path as `a`. */
  lemma LeadingCurDirIsKept()
    ensures !SamePath(Path([Char('.'), Separator, Char('a')]), Path([Char('a')]))
  {
    var a, dot := Char('a'), Char('.');
    assert [a][1..] == [] && [a] + [] == [a] && [dot] + [] == Dot;
    assert Segments([a]) == [[a]];
    assert [Separator, a][1..] == [a];
    assert Segments([Separator, a]) == [[], [a]];
    assert [dot, Separator, a][1..] == [Separator, a];
    assert Segments([dot, Separator, a]) == [Dot, [a]];
    assert Components(Path([dot, Separator, a]))[0] == CurDir;
  }
}
