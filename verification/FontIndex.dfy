/**
 * Building the font index (src/text/font_index.cpp): faces of unchanged files
 * are copied out of the old index, the others parsed. What a font file holds is
 * a function of its path, time and size.
 */
module FontIndex {
  import opened Wrappers
  import U = Utf8
  import opened FontCoverage
  import opened Varints

  datatype Found = Found(path: bytes, mtime: int, size: nat)

  /** One face of a parsed file; `rest` stands for the record's other fields. */
  datatype Parsed = Parsed(family: bytes, rest: seq<nat>, ranges: seq<Range>)

  datatype FileRec = FileRec(path: nat, mtime: int, size: nat)

  datatype Face = Face(file: nat, family: nat, covOff: nat, covLen: nat, blocks: seq<bool>, rest: seq<nat>)

  datatype Content = Content(files: seq<FileRec>, faces: seq<Face>, pool: bytes, cov: bytes)

  // ---- The string pool ----

  /** The NUL-terminated string at an offset. */
  function CString(pool: bytes, off: nat): bytes
    decreases |pool| - off
  {
    if off >= |pool| || pool[off] == 0 then [] else [pool[off]] + CString(pool, off + 1)
  }

  predicate Terminated(pool: bytes) { pool == [] || pool[|pool| - 1] == 0 }

  lemma {:induction false} CStringKeeps(pool: bytes, more: bytes, off: nat)
    requires Terminated(pool) && off < |pool|
    ensures CString(pool + more, off) == CString(pool, off)
    decreases |pool| - off
  {
    if pool[off] != 0 { CStringKeeps(pool, more, off + 1); }
  }

  lemma {:induction false} CStringAdded(pool: bytes, s: bytes, k: nat)
    requires k <= |s|
    ensures CString(pool + s + [0], |pool| + k) == CString(s + [0], k)
    decreases |s| - k
  {
    if k < |s| && s[k] != 0 { CStringAdded(pool, s, k + 1); }
  }

  lemma {:induction false} CStringOfText(s: bytes, k: nat)
    requires k <= |s| && forall j :: 0 <= j < |s| ==> s[j] != 0
    ensures CString(s + [0], k) == s[k..]
    decreases |s| - k
  {
    if k < |s| { CStringOfText(s, k + 1); }
  }

  /** What is left of a name once stored: everything before its first NUL. */
  function Stored(s: bytes): bytes { CString(s + [0], 0) }

  lemma {:induction false} CStringHasNoNul(pool: bytes, off: nat)
    ensures forall j :: 0 <= j < |CString(pool, off)| ==> CString(pool, off)[j] != 0
    decreases |pool| - off
  {
    if off < |pool| && pool[off] != 0 { CStringHasNoNul(pool, off + 1); }
  }

  lemma StoredAgain(pool: bytes, off: nat)
    ensures Stored(CString(pool, off)) == CString(pool, off)
  {
    CStringHasNoNul(pool, off);
    CStringOfText(CString(pool, off), 0);
  }

  // ---- Faces of a file ----

  /** The indices of the faces of file `v`, in order. */
  function Positions(faces: seq<Face>, v: nat): (r: seq<nat>)
    ensures forall k :: 0 <= k < |r| ==> r[k] < |faces| && faces[r[k]].file == v
  {
    if faces == [] then []
    else
      var n := |faces| - 1;
      Positions(faces[..n], v) + if faces[n].file == v then [n] else []
  }

  lemma PositionsPush(faces: seq<Face>, f: Face, v: nat)
    ensures Positions(faces + [f], v) == Positions(faces, v) + if f.file == v then [|faces|] else []
  {
    assert (faces + [f])[..|faces|] == faces;
  }

  lemma {:induction false} PositionsPrefix(faces: seq<Face>, n: nat, v: nat)
    requires n <= |faces|
    ensures Positions(faces[..n], v) <= Positions(faces, v)
    ensures n < |faces| && faces[n].file == v ==> |Positions(faces[..n], v)| < |Positions(faces, v)|
    decreases |faces|
  {
    var m := |faces| - 1;
    if n == |faces| {
      assert faces[..n] == faces;
    } else {
      PositionsPrefix(faces[..m], n, v);
      assert faces[..m][..n] == faces[..n];
    }
  }

  /** How many faces belong to files before `v`. */
  function Start(faces: seq<Face>, v: nat): nat
  {
    if v == 0 then 0 else Start(faces, v - 1) + |Positions(faces, v - 1)|
  }

  lemma {:induction false} StartMonotone(faces: seq<Face>, u: nat, v: nat)
    requires u <= v
    ensures Start(faces, u) <= Start(faces, v)
  {
    if u < v { StartMonotone(faces, u, v - 1); }
  }

  lemma {:induction false} StartPush(faces: seq<Face>, f: Face, v: nat)
    ensures Start(faces + [f], v) == Start(faces, v) + if f.file < v then 1 else 0
  {
    hide Positions;
    if v == 0 {
    } else {
      StartPush(faces, f, v - 1);
      PositionsPush(faces, f, v - 1);
    }
  }

  lemma {:induction false} StartIsTotal(faces: seq<Face>, files: nat)
    requires forall i :: 0 <= i < |faces| ==> faces[i].file < files
    ensures Start(faces, files) == |faces|
  {
    if faces == [] {
      NoFaces(files);
    } else {
      var n := |faces| - 1;
      StartIsTotal(faces[..n], files);
      StartPush(faces[..n], faces[n], files);
      assert faces == faces[..n] + [faces[n]];
    }
  }

  lemma {:induction false} NoFaces(v: nat)
    ensures Start([], v) == 0
  {
    hide Positions;
    NoPositions();
    if v == 0 {
    } else {
      NoFaces(v - 1);
    }
  }

  /** `byFile[facesOf[v]..facesOf[v + 1]]` lists the faces of file `v`. */
  ghost predicate Lists(facesOf: seq<nat>, byFile: seq<nat>, faces: seq<Face>, v: nat)
  {
    && v + 1 < |facesOf| && facesOf[v] <= facesOf[v + 1] <= |byFile|
    && byFile[facesOf[v]..facesOf[v + 1]] == Positions(faces, v)
  }

  /** The old faces grouped by file, by counting. */
  method GroupByFile(faces: seq<Face>, files: nat) returns (facesOf: array<nat>, byFile: array<nat>)
    requires forall i :: 0 <= i < |faces| ==> faces[i].file < files
    ensures fresh(facesOf) && fresh(byFile) && facesOf.Length == files + 1
    ensures forall v: nat :: v < files ==> Lists(facesOf[..], byFile[..], faces, v)
  {
    hide Start, Positions, Lists, Grouped;
    facesOf := CountFaces(faces, files);
    SumUp(faces, files, facesOf);
    StartIsTotal(faces, files);
    byFile := new nat[|faces|];
    var at := new nat[files];
    var j: nat := 0;
    while j < files
      invariant j <= files && forall v: nat :: v < j ==> at[v] == Start(faces, v)
      invariant forall v: nat :: v <= files ==> facesOf[v] == Start(faces, v)
    {
      at[j] := facesOf[j];
      j := j + 1;
    }
    Place(faces, files, at, byFile);
    forall v: nat | v < files ensures Lists(facesOf[..], byFile[..], faces, v) {
      GroupedAll(faces, files, at[..], facesOf[..], byFile[..], v);
    }
  }

  lemma GroupedAll(faces: seq<Face>, files: nat, at: seq<nat>, facesOf: seq<nat>, byFile: seq<nat>, v: nat)
    requires v < files == |at| && |facesOf| == files + 1 && Grouped(faces, |faces|, at, byFile, v)
    requires |byFile| == Start(faces, files)
    requires forall u: nat :: u <= files ==> facesOf[u] == Start(faces, u)
    ensures Lists(facesOf, byFile, faces, v)
  {
    StartMonotone(faces, v + 1, files);
    assert faces[..|faces|] == faces;
  }

  method CountFaces(faces: seq<Face>, files: nat) returns (facesOf: array<nat>)
    requires forall i :: 0 <= i < |faces| ==> faces[i].file < files
    ensures fresh(facesOf) && facesOf.Length == files + 1 && facesOf[0] == 0
    ensures forall u: nat :: 1 <= u <= files ==> facesOf[u] == |Positions(faces, u - 1)|
  {
    hide Positions;
    facesOf := new nat[files + 1](_ => 0);
    NoPositions();
    var i: nat := 0;
    assert faces[..0] == [];
    while i < |faces|
      invariant i <= |faces| && facesOf[0] == 0
      invariant forall u: nat :: 1 <= u <= files ==> facesOf[u] == |Positions(faces[..i], u - 1)|
    {
      assert faces[..i + 1] == faces[..i] + [faces[i]];
      ghost var was := facesOf[..];
      var w := faces[i].file + 1;
      facesOf[w] := facesOf[w] + 1;
      forall u: nat | 1 <= u <= files ensures facesOf[u] == |Positions(faces[..i + 1], u - 1)| {
        PositionsPush(faces[..i], faces[i], u - 1);
        assert facesOf[u] == if u == w then was[u] + 1 else was[u];
      }
      i := i + 1;
    }
    assert faces[..i] == faces;
  }

  lemma NoPositions()
    ensures forall v: nat :: Positions([], v) == []
  {
  }

  lemma StartStep(faces: seq<Face>, v: nat)
    ensures Start(faces, v) == if v == 0 then 0 else Start(faces, v - 1) + |Positions(faces, v - 1)|
  {
  }

  method SumUp(faces: seq<Face>, files: nat, facesOf: array<nat>)
    requires facesOf.Length == files + 1 && facesOf[0] == 0
    requires forall u: nat :: 1 <= u <= files ==> facesOf[u] == |Positions(faces, u - 1)|
    modifies facesOf
    ensures forall u: nat :: u <= files ==> facesOf[u] == Start(faces, u)
  {
    hide Positions, Start;
    ghost var counts := facesOf[..];
    var i: nat := 1;
    StartStep(faces, 0);
    while i < facesOf.Length
      invariant 1 <= i <= facesOf.Length
      invariant forall u: nat :: u < i ==> facesOf[u] == Start(faces, u)
      invariant forall u: nat :: i <= u <= files ==> facesOf[u] == counts[u]
    {
      StartStep(faces, i);
      facesOf[i] := facesOf[i] + facesOf[i - 1];
      i := i + 1;
    }
  }

  /** After the first `n` faces were placed, file `v`'s stretch holds its faces among them. */
  ghost predicate Grouped(faces: seq<Face>, n: nat, at: seq<nat>, byFile: seq<nat>, v: nat)
    requires n <= |faces| && v < |at|
  {
    && at[v] == Start(faces, v) + |Positions(faces[..n], v)| <= |byFile|
    && byFile[Start(faces, v)..at[v]] == Positions(faces[..n], v)
  }

  lemma GroupSame(faces: seq<Face>, n: nat, at: seq<nat>, byFile: seq<nat>, v: nat)
    requires n < |faces| && v < |at| && faces[n].file == v && Grouped(faces, n, at, byFile, v) && at[v] < |byFile|
    ensures Grouped(faces, n + 1, at[v := at[v] + 1], byFile[at[v] := n], v)
  {
    hide Start, Positions;
    assert faces[..n + 1] == faces[..n] + [faces[n]];
    PositionsPush(faces[..n], faces[n], v);
    assert byFile[at[v] := n][Start(faces, v)..at[v] + 1] == byFile[Start(faces, v)..at[v]] + [n];
  }

  lemma GroupOther(faces: seq<Face>, n: nat, at: seq<nat>, byFile: seq<nat>, v: nat, k: nat)
    requires n < |faces| && v < |at| && faces[n].file != v && faces[n].file < |at| && Grouped(faces, n, at, byFile, v)
    requires k < |byFile| && !(Start(faces, v) <= k < at[v])
    ensures Grouped(faces, n + 1, at[faces[n].file := at[faces[n].file] + 1], byFile[k := n], v)
  {
    hide Start, Positions;
    assert faces[..n + 1] == faces[..n] + [faces[n]];
    PositionsPush(faces[..n], faces[n], v);
    assert byFile[k := n][Start(faces, v)..at[v]] == byFile[Start(faces, v)..at[v]];
  }

  lemma GroupStep(faces: seq<Face>, n: nat, at: seq<nat>, byFile: seq<nat>, v: nat)
    requires n < |faces| && v < |at| && faces[n].file < |at|
    requires Grouped(faces, n, at, byFile, v) && Grouped(faces, n, at, byFile, faces[n].file)
    requires at[faces[n].file] < Start(faces, faces[n].file + 1) <= |byFile|
    ensures var w := faces[n].file;
            Grouped(faces, n + 1, at[w := at[w] + 1], byFile[at[w] := n], v)
  {
    hide Start, Positions, Grouped;
    var w := faces[n].file;
    GroupedStarts(faces, n, at, byFile, w);
    GroupedStarts(faces, n, at, byFile, v);
    if v == w {
      GroupSame(faces, n, at, byFile, v);
    } else {
      if v < w { StartMonotone(faces, v + 1, w); } else { StartMonotone(faces, w + 1, v); }
      GroupOther(faces, n, at, byFile, v, at[w]);
    }
  }

  lemma GroupedStarts(faces: seq<Face>, n: nat, at: seq<nat>, byFile: seq<nat>, v: nat)
    requires n <= |faces| && v < |at| && Grouped(faces, n, at, byFile, v)
    ensures Start(faces, v) <= at[v] <= Start(faces, v + 1)
  {
    StretchEnds(faces, n, v);
  }

  lemma StretchEnds(faces: seq<Face>, n: nat, v: nat)
    requires n <= |faces|
    ensures Start(faces, v) + |Positions(faces[..n], v)| <= Start(faces, v + 1)
  {
    PositionsPrefix(faces, n, v);
  }

  method Place(faces: seq<Face>, files: nat, at: array<nat>, byFile: array<nat>)
    requires at != byFile && at.Length == files && byFile.Length == |faces| == Start(faces, files)
    requires forall i :: 0 <= i < |faces| ==> faces[i].file < files
    requires forall v :: 0 <= v < files ==> at[v] == Start(faces, v)
    modifies at, byFile
    ensures forall v: nat :: v < files ==> Grouped(faces, |faces|, at[..], byFile[..], v)
  {
    hide Grouped, Start, Positions;
    forall v: nat | v < files ensures Grouped(faces, 0, at[..], byFile[..], v) { GroupStart(faces, files, at[..], byFile[..], v); }
    var fi: nat := 0;
    while fi < |faces|
      invariant fi <= |faces| && forall v: nat :: v < files ==> Grouped(faces, fi, at[..], byFile[..], v)
    {
      var w := faces[fi].file;
      PlaceFits(faces, fi, files, at[..], byFile[..]);
      ghost var a, b := at[..], byFile[..];
      byFile[at[w]] := fi;
      at[w] := at[w] + 1;
      ghost var n := fi;
      fi := fi + 1;
      ghost var a1, b1 := at[..], byFile[..];
      assert a1 == a[w := a[w] + 1] && b1 == b[a[w] := n];
      forall v: nat | v < files ensures Grouped(faces, fi, a1, b1, v) { GroupStep(faces, n, a, b, v); }
    }
  }

  lemma GroupStart(faces: seq<Face>, files: nat, at: seq<nat>, byFile: seq<nat>, v: nat)
    requires v < files == |at| && at[v] == Start(faces, v) && |byFile| == Start(faces, files)
    ensures Grouped(faces, 0, at, byFile, v)
  {
    StartMonotone(faces, v, files);
    assert faces[..0] == [];
  }

  lemma PlaceFits(faces: seq<Face>, n: nat, files: nat, at: seq<nat>, byFile: seq<nat>)
    requires n < |faces| && faces[n].file < files == |at| && |byFile| == Start(faces, files)
    requires Grouped(faces, n, at, byFile, faces[n].file)
    ensures at[faces[n].file] < Start(faces, faces[n].file + 1) <= |byFile|
  {
    hide Start, Positions;
    var v := faces[n].file;
    PositionsPrefix(faces, n, v);
    StartStep(faces, v + 1);
    StartMonotone(faces, v + 1, files);
  }

  // ---- Faces and what they stand for ----

  predicate ValidFace(c: Content, f: Face)
  {
    f.file < |c.files| && f.family < |c.pool| && f.covOff + f.covLen <= |c.cov| && |f.blocks| == BLOCKS
  }

  /** What reading the cache file checks, and that its strings end. */
  ghost predicate Valid(c: Content)
  {
    && Terminated(c.pool)
    && (forall i :: 0 <= i < |c.files| ==> c.files[i].path < |c.pool|)
    && (forall i :: 0 <= i < |c.faces| ==> ValidFace(c, c.faces[i]))
  }

  /** The face has the parsed one's name and fields and covers exactly its code points. */
  ghost predicate Represents(pool: bytes, cov: bytes, f: Face, p: Parsed)
  {
    && f.covOff + f.covLen <= |cov| && |f.blocks| == BLOCKS
    && CString(pool, f.family) == Stored(p.family) && f.rest == p.rest
    && forall cp: nat :: CoversIn(f.blocks, cov[f.covOff..f.covOff + f.covLen], cp) <==> InRanges(p.ranges, cp)
  }

  /** Faces without coverage are left out. */
  function Covering(ps: seq<Parsed>): seq<Parsed>
  {
    if ps == [] then []
    else Covering(ps[..|ps| - 1]) + if ps[|ps| - 1].ranges == [] then [] else [ps[|ps| - 1]]
  }

  /** The file's faces are the first `n` of these. */
  ghost predicate FilePart(c: Content, i: nat, ps: seq<Parsed>, n: nat)
  {
    var pos := Positions(c.faces, i);
    n == |pos| <= |ps| && forall k :: 0 <= k < n ==> Represents(c.pool, c.cov, c.faces[pos[k]], ps[k])
  }

  function FoundOf(c: Content, i: nat): Found
    requires i < |c.files|
  {
    Found(CString(c.pool, c.files[i].path), c.files[i].mtime, c.files[i].size)
  }

  ghost predicate FileComplete(c: Content, i: nat, ps: seq<Parsed>) { FilePart(c, i, Covering(ps), |Covering(ps)|) }

  /** Every file's faces are those that parsing it gives. */
  ghost predicate Complete(c: Content, parse: Found -> seq<Parsed>)
  {
    forall i: nat :: i < |c.files| ==> FileComplete(c, i, parse(FoundOf(c, i)))
  }

  lemma RepresentsKeeps(pool: bytes, cov: bytes, f: Face, p: Parsed, morePool: bytes, moreCov: bytes)
    requires Represents(pool, cov, f, p) && Terminated(pool) && f.family < |pool|
    ensures Represents(pool + morePool, cov + moreCov, f, p)
  {
    hide CoversIn, InRanges;
    CStringKeeps(pool, morePool, f.family);
    assert (cov + moreCov)[f.covOff..f.covOff + f.covLen] == cov[f.covOff..f.covOff + f.covLen];
  }

  function Appended(c: Content, f: Face, morePool: bytes, moreCov: bytes): Content
  {
    Content(c.files, c.faces + [f], c.pool + morePool, c.cov + moreCov)
  }

  /** A face appended for one file leaves the other files' faces as they are. */
  lemma OthersKeep(c: Content, f: Face, morePool: bytes, moreCov: bytes, i: nat, ps: seq<Parsed>, n: nat)
    requires Valid(c) && FilePart(c, i, ps, n) && f.file != i
    ensures FilePart(Appended(c, f, morePool, moreCov), i, ps, n)
  {
    hide Represents, Positions;
    PositionsPush(c.faces, f, i);
    var pos := Positions(c.faces, i);
    forall k | 0 <= k < n ensures Represents(c.pool + morePool, c.cov + moreCov, (c.faces + [f])[pos[k]], ps[k]) {
      RepresentsKeeps(c.pool, c.cov, c.faces[pos[k]], ps[k], morePool, moreCov);
    }
  }

  lemma OneMore(c: Content, f: Face, morePool: bytes, moreCov: bytes, ps: seq<Parsed>, n: nat)
    requires Valid(c) && FilePart(c, f.file, ps, n) && n < |ps| && Represents(c.pool + morePool, c.cov + moreCov, f, ps[n])
    ensures FilePart(Appended(c, f, morePool, moreCov), f.file, ps, n + 1)
  {
    hide Represents, Positions;
    PositionsPush(c.faces, f, f.file);
    var pos := Positions(c.faces, f.file);
    var pos1 := pos + [|c.faces|];
    assert Positions(c.faces + [f], f.file) == pos1;
    forall k | 0 <= k < n + 1 ensures Represents(c.pool + morePool, c.cov + moreCov, (c.faces + [f])[pos1[k]], ps[k]) {
      if k < n { RepresentsKeeps(c.pool, c.cov, c.faces[pos[k]], ps[k], morePool, moreCov); }
    }
  }

  lemma ValidAppended(c: Content, f: Face, morePool: bytes, moreCov: bytes)
    requires Valid(c) && Terminated(c.pool + morePool)
    requires f.file < |c.files| && f.family < |c.pool + morePool| && f.covOff + f.covLen <= |c.cov + moreCov| && |f.blocks| == BLOCKS
    ensures Valid(Appended(c, f, morePool, moreCov))
  {
    var d := Appended(c, f, morePool, moreCov);
    forall k | 0 <= k < |d.faces| ensures ValidFace(d, d.faces[k]) {
      assert k < |c.faces| ==> d.faces[k] == c.faces[k] && ValidFace(c, c.faces[k]);
    }
  }

  /** Faces were appended, all for file `i`. */
  predicate AppendedFor(was: seq<Face>, faces: seq<Face>, i: nat)
  {
    was <= faces && forall k :: |was| <= k < |faces| ==> faces[k].file == i
  }

  // ---- The index being built ----

  class Index {
    var files: seq<FileRec>
    var faces: seq<Face>
    var pool: bytes
    var cov: bytes

    constructor ()
      ensures View() == Content([], [], [], [])
    {
      files, faces, pool, cov := [], [], [], [];
    }

    ghost function View(): Content
      reads this
    {
      Content(files, faces, pool, cov)
    }

    method AddString(s: bytes) returns (off: nat)
      modifies this`pool
      ensures off == |old(pool)| && pool == old(pool) + (s + [0])
    {
      off := |pool|;
      pool := pool + (s + [0]);
    }

    /** The end of parsing one face. */
    method AddParsed(i: nat, p: Parsed, ghost ps: seq<Parsed>, ghost n: nat)
      requires Valid(View()) && i < |files| && Usable(p.ranges)
      requires FilePart(View(), i, ps, n) && (p.ranges != [] ==> n < |ps| && ps[n] == p)
      modifies this
      ensures Valid(View()) && files == old(files) && |faces| == |old(faces)| + if p.ranges == [] then 0 else 1
      ensures FilePart(View(), i, ps, if p.ranges == [] then n else n + 1) && AppendedFor(old(faces), faces, i)
      ensures forall j: nat, qs, m :: j != i && FilePart(old(View()), j, qs, m) ==> FilePart(View(), j, qs, m)
      ensures forall j: nat :: j < |files| ==> FoundOf(View(), j) == FoundOf(old(View()), j)
    {
      hide Valid, FilePart, InRanges, CoversIn, Separated, Usable, Encoded, BlocksOf;
      var ranges := Coverage(p.ranges);
      if ranges == [] { return; }
      ghost var c := View();
      var covOff, blocks := |cov|, [];
      cov, blocks := Encode(cov, ranges);
      var covLen := |cov| - covOff;
      var family := AddString(p.family);
      var f := Face(i, family, covOff, covLen, blocks, p.rest);
      faces := faces + [f];
      ParsedRepresents(c, f, p, ranges);
      FaceAdded(c, f, p.family + [0], Encoded(ranges, 0), ps, n);
    }

    /** An unchanged file's face, copied with its name and its coverage. */
    method AddCopy(i: nat, old0: Content, g: Face, ghost ps: seq<Parsed>, ghost n: nat)
      requires Valid(View()) && i < |files| && ValidFace(old0, g)
      requires FilePart(View(), i, ps, n) && n < |ps| && Represents(old0.pool, old0.cov, g, ps[n])
      modifies this
      ensures Valid(View()) && files == old(files) && |faces| == |old(faces)| + 1
      ensures FilePart(View(), i, ps, n + 1) && AppendedFor(old(faces), faces, i)
      ensures forall j: nat, qs, m :: j != i && FilePart(old(View()), j, qs, m) ==> FilePart(View(), j, qs, m)
      ensures forall j: nat :: j < |files| ==> FoundOf(View(), j) == FoundOf(old(View()), j)
    {
      hide Valid, FilePart, CoversIn;
      ghost var c := View();
      var name := CStringAt(old0.pool, g.family);
      var code := old0.cov[g.covOff..g.covOff + g.covLen];
      var family := AddString(name);
      var f := g.(file := i, family := family, covOff := |cov|);
      cov := cov + code;
      faces := faces + [f];
      CopyRepresents(c, old0, g, f, ps[n]);
      FaceAdded(c, f, name + [0], code, ps, n);
    }

    method AddFile(f: Found)
      requires Valid(View()) && NoNul(f.path)
      modifies this
      ensures Valid(View()) && |files| == |old(files)| + 1 && faces == old(faces)
      ensures FoundOf(View(), |old(files)|) == f
      ensures forall ps :: FilePart(View(), |old(files)|, ps, 0)
      ensures forall j: nat, qs, m :: FilePart(old(View()), j, qs, m) ==> FilePart(View(), j, qs, m)
      ensures forall j: nat :: j < |old(files)| ==> FoundOf(View(), j) == FoundOf(old(View()), j)
    {
      hide Valid, FilePart;
      ghost var c := View();
      var path := AddString(f.path);
      files := files + [FileRec(path, f.mtime, f.size)];
      FileAdded(c, f);
    }

    /** Parses a file: all its faces, in order. */
    method ParseFile(i: nat, parsed: seq<Parsed>)
      requires Valid(View()) && i < |files| && AllUsable(parsed) && FilePart(View(), i, Covering(parsed), 0)
      modifies this
      ensures Valid(View()) && files == old(files) && |faces| == |old(faces)| + |Covering(parsed)|
      ensures FileComplete(View(), i, parsed) && AppendedFor(old(faces), faces, i)
      ensures forall j: nat, qs, m :: j != i && FilePart(old(View()), j, qs, m) ==> FilePart(View(), j, qs, m)
      ensures forall j: nat :: j < |files| ==> FoundOf(View(), j) == FoundOf(old(View()), j)
    {
      hide Valid, FilePart, Covering, FoundOf, Usable;
      ghost var ps := Covering(parsed);
      var k: nat := 0;
      CoveringAt(parsed, 0);
      while k < |parsed|
        invariant k <= |parsed| && Valid(View()) && files == old(files)
        invariant |faces| == |old(faces)| + |Covering(parsed[..k])|
        invariant FilePart(View(), i, ps, |Covering(parsed[..k])|) && AppendedFor(old(faces), faces, i)
        invariant forall j: nat, qs, m :: j != i && FilePart(old(View()), j, qs, m) ==> FilePart(View(), j, qs, m)
        invariant forall j: nat :: j < |files| ==> FoundOf(View(), j) == FoundOf(old(View()), j)
      {
        CoveringAt(parsed, k);
        AddParsed(i, parsed[k], ps, |Covering(parsed[..k])|);
        k := k + 1;
      }
      assert parsed[..k] == parsed;
    }

    /** Copies an unchanged file's faces, whatever they are. */
    method CopyFile(i: nat, old0: Content, oi: nat, facesOf: seq<nat>, byFile: seq<nat>, ghost ps: seq<Parsed>)
      requires Valid(View()) && i < |files| && FilePart(View(), i, ps, 0)
      requires Valid(old0) && Lists(facesOf, byFile, old0.faces, oi) && FilePart(old0, oi, ps, |ps|)
      modifies this
      ensures Valid(View()) && files == old(files) && |faces| == |old(faces)| + |ps|
      ensures FilePart(View(), i, ps, |ps|) && AppendedFor(old(faces), faces, i)
      ensures forall j: nat, qs, m :: j != i && FilePart(old(View()), j, qs, m) ==> FilePart(View(), j, qs, m)
      ensures forall j: nat :: j < |files| ==> FoundOf(View(), j) == FoundOf(old(View()), j)
    {
      hide Valid, FilePart, Represents, FoundOf, Positions;
      var k, n: nat := facesOf[oi], 0;
      while k < facesOf[oi + 1]
        invariant facesOf[oi] <= k == facesOf[oi] + n <= facesOf[oi + 1] && Valid(View()) && files == old(files)
        invariant |faces| == |old(faces)| + n && FilePart(View(), i, ps, n) && AppendedFor(old(faces), faces, i)
        invariant forall j: nat, qs, m :: j != i && FilePart(old(View()), j, qs, m) ==> FilePart(View(), j, qs, m)
        invariant forall j: nat :: j < |files| ==> FoundOf(View(), j) == FoundOf(old(View()), j)
      {
        OldFace(old0, oi, facesOf, byFile, ps, n);
        AddCopy(i, old0, old0.faces[byFile[k]], ps, n);
        k, n := k + 1, n + 1;
      }
      AllOldFaces(old0, oi, facesOf, byFile, ps);
    }
  }

  predicate NoNul(s: bytes) { forall j :: 0 <= j < |s| ==> s[j] != 0 }

  predicate AllUsable(parsed: seq<Parsed>) { forall k :: 0 <= k < |parsed| ==> Usable(parsed[k].ranges) }

  lemma {:induction false} CoveringAt(ps: seq<Parsed>, k: nat)
    requires k <= |ps|
    ensures Covering(ps[..k]) <= Covering(ps) && (k == 0 ==> Covering(ps[..k]) == [])
    ensures k < |ps| ==> |Covering(ps[..k + 1])| == |Covering(ps[..k])| + if ps[k].ranges == [] then 0 else 1
    ensures k < |ps| && ps[k].ranges != [] ==> |Covering(ps[..k])| < |Covering(ps)| && Covering(ps)[|Covering(ps[..k])|] == ps[k]
    decreases |ps|
  {
    var n := |ps| - 1;
    if k == |ps| {
      assert ps[..k] == ps;
    } else if k == n {
      assert ps[..k + 1] == ps;
    } else {
      CoveringAt(ps[..n], k);
      assert ps[..n][..k] == ps[..k] && ps[..n][..k + 1] == ps[..k + 1];
    }
  }

  /** The old index's n-th face of the file, found through the grouping. */
  lemma OldFace(old0: Content, oi: nat, facesOf: seq<nat>, byFile: seq<nat>, ps: seq<Parsed>, n: nat)
    requires Valid(old0) && Lists(facesOf, byFile, old0.faces, oi) && FilePart(old0, oi, ps, |ps|)
    requires facesOf[oi] + n < facesOf[oi + 1]
    ensures var b := byFile[facesOf[oi] + n];
            n < |ps| && b < |old0.faces| && ValidFace(old0, old0.faces[b]) && Represents(old0.pool, old0.cov, old0.faces[b], ps[n])
  {
    hide Represents, Positions, ValidFace;
    var pos := Positions(old0.faces, oi);
    assert pos == byFile[facesOf[oi]..facesOf[oi + 1]];
    assert pos[n] == byFile[facesOf[oi] + n];
  }

  lemma AllOldFaces(old0: Content, oi: nat, facesOf: seq<nat>, byFile: seq<nat>, ps: seq<Parsed>)
    requires Lists(facesOf, byFile, old0.faces, oi) && FilePart(old0, oi, ps, |ps|)
    ensures facesOf[oi + 1] - facesOf[oi] == |ps|
  {
    hide Represents, Positions;
  }

  lemma {:induction false} NoneOfFile(faces: seq<Face>, v: nat)
    requires forall i :: 0 <= i < |faces| ==> faces[i].file != v
    ensures Positions(faces, v) == []
  {
    if faces == [] {
    } else {
      NoneOfFile(faces[..|faces| - 1], v);
    }
  }

  lemma FileAdded(c: Content, f: Found)
    requires Valid(c) && NoNul(f.path)
    ensures var d := Content(c.files + [FileRec(|c.pool|, f.mtime, f.size)], c.faces, c.pool + (f.path + [0]), c.cov);
            && Valid(d) && FoundOf(d, |c.files|) == f
            && (forall ps :: FilePart(d, |c.files|, ps, 0))
            && (forall j: nat, qs, m :: FilePart(c, j, qs, m) ==> FilePart(d, j, qs, m))
            && forall j: nat :: j < |c.files| ==> FoundOf(d, j) == FoundOf(c, j)
  {
    hide Represents, Positions;
    var d := Content(c.files + [FileRec(|c.pool|, f.mtime, f.size)], c.faces, c.pool + (f.path + [0]), c.cov);
    forall k | 0 <= k < |d.faces| ensures ValidFace(d, d.faces[k]) { assert ValidFace(c, c.faces[k]); }
    CStringAdded(c.pool, f.path, 0);
    CStringOfText(f.path, 0);
    assert c.pool + f.path + [0] == d.pool;
    NoneOfFile(c.faces, |c.files|) by {
      forall i | 0 <= i < |c.faces| ensures c.faces[i].file != |c.files| { assert ValidFace(c, c.faces[i]); }
    }
    forall j: nat | j < |c.files| ensures FoundOf(d, j) == FoundOf(c, j) { CStringKeeps(c.pool, f.path + [0], c.files[j].path); }
    forall j: nat, qs, m | FilePart(c, j, qs, m) ensures FilePart(d, j, qs, m) { PoolGrew(c, d, f.path + [0], j, qs, m); }
  }

  lemma PoolGrew(c: Content, d: Content, more: bytes, j: nat, qs: seq<Parsed>, m: nat)
    requires Valid(c) && FilePart(c, j, qs, m) && d.faces == c.faces && d.pool == c.pool + more && d.cov == c.cov
    ensures FilePart(d, j, qs, m)
  {
    hide Represents, Positions;
    var pos := Positions(c.faces, j);
    assert c.cov + [] == c.cov;
    forall k | 0 <= k < m ensures Represents(d.pool, d.cov, d.faces[pos[k]], qs[k]) {
      assert ValidFace(c, c.faces[pos[k]]);
      RepresentsKeeps(c.pool, c.cov, c.faces[pos[k]], qs[k], more, []);
    }
  }

  method CStringAt(pool: bytes, off: nat) returns (s: bytes)
    ensures s == CString(pool, off)
  {
    s := [];
    var i := off;
    while i < |pool| && pool[i] != 0
      invariant s + CString(pool, i) == CString(pool, off)
      decreases |pool| - i
    {
      assert s + CString(pool, i) == s + [pool[i]] + CString(pool, i + 1);
      s := s + [pool[i]];
      i := i + 1;
    }
  }

  lemma ParsedRepresents(c: Content, f: Face, p: Parsed, ranges: seq<Range>)
    requires Separated(ranges) && Usable(ranges) && BlocksOf(f.blocks, ranges)
    requires forall cp: nat :: InRanges(ranges, cp) <==> InRanges(p.ranges, cp)
    requires f.family == |c.pool| && f.covOff == |c.cov| && f.covLen == |Encoded(ranges, 0)| && f.rest == p.rest
    ensures Represents(c.pool + (p.family + [0]), c.cov + Encoded(ranges, 0), f, p)
  {
    hide InRanges, CoversIn, Separated, Usable, Encoded, BlocksOf;
    BlocksSize(f.blocks, ranges);
    CStringAdded(c.pool, p.family, 0);
    assert c.pool + (p.family + [0]) == c.pool + p.family + [0];
    assert (c.cov + Encoded(ranges, 0))[f.covOff..f.covOff + f.covLen] == Encoded(ranges, 0);
    forall cp: nat ensures CoversIn(f.blocks, Encoded(ranges, 0), cp) <==> InRanges(p.ranges, cp) { CoversExactly(f.blocks, ranges, cp); }
  }

  lemma CopyRepresents(c: Content, old0: Content, g: Face, f: Face, p: Parsed)
    requires ValidFace(old0, g) && Represents(old0.pool, old0.cov, g, p)
    requires f == g.(file := f.file, family := |c.pool|, covOff := |c.cov|)
    ensures Represents(c.pool + (CString(old0.pool, g.family) + [0]), c.cov + old0.cov[g.covOff..g.covOff + g.covLen], f, p)
  {
    hide CoversIn, InRanges;
    var name, code := CString(old0.pool, g.family), old0.cov[g.covOff..g.covOff + g.covLen];
    CStringAdded(c.pool, name, 0);
    StoredAgain(old0.pool, g.family);
    assert c.pool + (name + [0]) == c.pool + name + [0];
    assert (c.cov + code)[f.covOff..f.covOff + f.covLen] == code;
  }

  lemma FaceAdded(c: Content, f: Face, morePool: bytes, moreCov: bytes, ps: seq<Parsed>, n: nat)
    requires Valid(c) && f.file < |c.files| && FilePart(c, f.file, ps, n) && n < |ps|
    requires Represents(c.pool + morePool, c.cov + moreCov, f, ps[n])
    requires f.family == |c.pool| && morePool != [] && morePool[|morePool| - 1] == 0
    ensures Valid(Appended(c, f, morePool, moreCov)) && FilePart(Appended(c, f, morePool, moreCov), f.file, ps, n + 1)
    ensures forall j: nat, qs, m :: j != f.file && FilePart(c, j, qs, m) ==> FilePart(Appended(c, f, morePool, moreCov), j, qs, m)
    ensures forall j: nat :: j < |c.files| ==> FoundOf(Appended(c, f, morePool, moreCov), j) == FoundOf(c, j)
  {
    hide FilePart;
    forall j: nat | j < |c.files| ensures FoundOf(Appended(c, f, morePool, moreCov), j) == FoundOf(c, j) {
      CStringKeeps(c.pool, morePool, c.files[j].path);
    }
    assert Terminated(c.pool + morePool);
    ValidAppended(c, f, morePool, moreCov);
    OneMore(c, f, morePool, moreCov, ps, n);
    forall j: nat, qs, m | j != f.file && FilePart(c, j, qs, m) ensures FilePart(Appended(c, f, morePool, moreCov), j, qs, m) {
      OthersKeep(c, f, morePool, moreCov, j, qs, m);
    }
  }

  // ---- Loading ----

  const MAX_FACES := 0xFFFE

  function Total(found: seq<Found>, parse: Found -> seq<Parsed>): nat
  {
    if found == [] then 0 else Total(found[..|found| - 1], parse) + |Covering(parse(found[|found| - 1]))|
  }

  predicate SameFile(old0: Content, oi: nat, f: Found)
    requires oi < |old0.files|
  {
    FoundOf(old0, oi) == f
  }

  /** The first entry of the file at `oi` or later; |files| when there is none. */
  function FirstOld(old0: Content, oi: nat, f: Found): (r: nat)
    requires oi <= |old0.files|
    ensures oi <= r <= |old0.files| && (r < |old0.files| ==> FoundOf(old0, r) == f)
    ensures forall j: nat :: oi <= j < r ==> FoundOf(old0, j) != f
    decreases |old0.files| - oi
  {
    if oi == |old0.files| || SameFile(old0, oi, f) then oi else FirstOld(old0, oi + 1, f)
  }

  /** The old entry of a file: looked for first where the last one ended. */
  function OldOf(old0: Content, next: nat, f: Found): nat
  {
    if next < |old0.files| && SameFile(old0, next, f) then next else FirstOld(old0, 0, f)
  }

  method FindOld(old0: Content, next: nat, f: Found) returns (oi: nat)
    ensures oi == OldOf(old0, next, f)
  {
    hide SameFile;
    oi := next;
    if oi >= |old0.files| || !SameFile(old0, oi, f) {
      oi := 0;
      while oi < |old0.files| && !SameFile(old0, oi, f)
        invariant oi <= |old0.files| && FirstOld(old0, 0, f) == FirstOld(old0, oi, f)
      {
        oi := oi + 1;
      }
    }
  }

  /** Where the search begins for the n-th file found. */
  function NextAt(old0: Content, found: seq<Found>, n: nat): nat
    requires n <= |found|
  {
    if n == 0 then 0
    else
      var next := NextAt(old0, found, n - 1);
      var oi := OldOf(old0, next, found[n - 1]);
      if oi < |old0.files| then oi + 1 else next
  }

  /**
   * The old entry that the i-th file found takes its faces from; none when it is
   * parsed, and that only when no entry has its path, time and size.
   */
  function UsedAt(old0: Option<Content>, found: seq<Found>, i: nat): (r: Option<nat>)
    requires i < |found|
    ensures r.Some? ==> old0.Some? && r.value < |old0.value.files| && FoundOf(old0.value, r.value) == found[i]
    ensures r.None? && old0.Some? ==> forall j: nat :: j < |old0.value.files| ==> FoundOf(old0.value, j) != found[i]
  {
    if old0.None? then None
    else
      var oi := OldOf(old0.value, NextAt(old0.value, found, i), found[i]);
      if oi < |old0.value.files| then Some(oi) else None
  }

  // ---- What an index holds ----

  ghost function CodePoints(blocks: seq<bool>, code: bytes, n: nat): seq<Range>
    requires |blocks| == BLOCKS
  {
    if n == 0 then [] else CodePoints(blocks, code, n - 1) + if CoversIn(blocks, code, n - 1) then [Range(n - 1, n - 1)] else []
  }

  lemma {:induction false} CodePointsAre(blocks: seq<bool>, code: bytes, n: nat, cp: nat)
    requires |blocks| == BLOCKS
    ensures InRanges(CodePoints(blocks, code, n), cp) <==> cp < n && CoversIn(blocks, code, cp)
  {
    hide InRanges, CoversIn;
    if n == 0 {
      NoPoints();
    } else {
      CodePointsAre(blocks, code, n - 1, cp);
      var before, last := CodePoints(blocks, code, n - 1), Range(n - 1, n - 1);
      Pushed(before, last, cp);
      assert before + [] == before && (InRange(last, cp) <==> cp == n - 1);
    }
  }

  lemma {:induction false} NothingPastWord(code: bytes, p: nat, prevEnd: nat, cp: nat)
    requires p <= |code| && cp >= WORD
    ensures !CoversFrom(code, p, prevEnd, cp)
    decreases |code| - p
  {
    hide ReadVarint;
    if p == |code| {
    } else {
      var (gap, p1) := ReadVarint(code, p, 0, 0);
      var (len, p2) := ReadVarint(code, p1, 0, 0);
      NothingPastWord(code, p2, ((prevEnd + gap) % WORD + len) % WORD, cp);
    }
  }

  /** A stored face as a parser would have given it. */
  ghost function FaceHeld(c: Content, f: Face): Parsed
    requires ValidFace(c, f)
  {
    Parsed(CString(c.pool, f.family), f.rest, CodePoints(f.blocks, c.cov[f.covOff..f.covOff + f.covLen], WORD))
  }

  /** The faces an index has for a file. */
  ghost function Held(c: Content, i: nat): seq<Parsed>
    requires Valid(c)
  {
    var pos := Positions(c.faces, i);
    seq(|pos|, k requires 0 <= k < |pos| => FaceHeld(c, c.faces[pos[k]]))
  }

  lemma FaceHeldIs(c: Content, f: Face)
    requires ValidFace(c, f)
    ensures Represents(c.pool, c.cov, f, FaceHeld(c, f))
  {
    hide CoversIn, InRanges, CodePoints;
    var code := c.cov[f.covOff..f.covOff + f.covLen];
    StoredAgain(c.pool, f.family);
    forall cp: nat ensures CoversIn(f.blocks, code, cp) <==> InRanges(CodePoints(f.blocks, code, WORD), cp) {
      CodePointsAre(f.blocks, code, WORD, cp);
      if cp >= WORD { FarIsOut(f.blocks, code, cp); }
    }
  }

  lemma FarIsOut(blocks: seq<bool>, code: bytes, cp: nat)
    requires |blocks| == BLOCKS && cp >= WORD
    ensures !CoversIn(blocks, code, cp)
  {
    NothingPastWord(code, 0, 0, cp);
  }

  lemma HeldIs(c: Content, i: nat)
    requires Valid(c)
    ensures FilePart(c, i, Held(c, i), |Held(c, i)|)
  {
    hide Represents, Positions, FaceHeld, ValidFace;
    var pos := Positions(c.faces, i);
    forall k | 0 <= k < |pos| ensures Represents(c.pool, c.cov, c.faces[pos[k]], Held(c, i)[k]) { FaceHeldIs(c, c.faces[pos[k]]); }
  }

  /** Two indexes with the same faces for a file stand for the same parsed ones. */
  lemma SameParts(a: Content, i: nat, b: Content, j: nat, ps: seq<Parsed>, qs: seq<Parsed>, n: nat)
    requires FilePart(a, i, ps, n) && FilePart(b, j, ps, n) && FilePart(a, i, qs, n)
    ensures FilePart(b, j, qs, n)
  {
    hide Represents, Positions;
    var pos, at := Positions(a.faces, i), Positions(b.faces, j);
    forall k | 0 <= k < n ensures Represents(b.pool, b.cov, b.faces[at[k]], qs[k]) {
      SameFace(a, a.faces[pos[k]], b, b.faces[at[k]], ps[k], qs[k]);
    }
  }

  lemma SameFace(a: Content, f: Face, b: Content, g: Face, p: Parsed, q: Parsed)
    requires Represents(a.pool, a.cov, f, p) && Represents(b.pool, b.cov, g, p) && Represents(a.pool, a.cov, f, q)
    ensures Represents(b.pool, b.cov, g, q)
  {
    hide CoversIn, InRanges;
    forall cp: nat ensures CoversIn(g.blocks, b.cov[g.covOff..g.covOff + g.covLen], cp) <==> InRanges(q.ranges, cp) {
      CoversItsRanges(a.pool, a.cov, f, p, cp);
      CoversItsRanges(a.pool, a.cov, f, q, cp);
      CoversItsRanges(b.pool, b.cov, g, p, cp);
    }
  }

  // ---- What a load gives ----

  /** The faces of the i-th file found: the old entry's when there is one, else the parsed ones. */
  ghost function PartOf(old0: Option<Content>, found: seq<Found>, parse: Found -> seq<Parsed>, i: nat): seq<Parsed>
    requires i < |found| && (old0.Some? ==> Valid(old0.value))
  {
    var used := UsedAt(old0, found, i);
    if used.Some? then Held(old0.value, used.value) else Covering(parse(found[i]))
  }

  /** How many faces the first `n` files get, before the limit. */
  ghost function PartTotal(old0: Option<Content>, found: seq<Found>, parse: Found -> seq<Parsed>, n: nat): nat
    requires n <= |found| && (old0.Some? ==> Valid(old0.value))
  {
    if n == 0 then 0 else PartTotal(old0, found, parse, n - 1) + |PartOf(old0, found, parse, n - 1)|
  }

  /** The files so far are the ones found, each with its faces, in the order of the files. */
  ghost predicate Built(c: Content, old0: Option<Content>, found: seq<Found>, n: nat, parse: Found -> seq<Parsed>)
    requires n <= |found| && (old0.Some? ==> Valid(old0.value))
  {
    && |c.files| == n && |c.faces| == PartTotal(old0, found, parse, n) && InOrder(c.faces, n)
    && forall j: nat :: j < n ==>
         FoundOf(c, j) == found[j] && FilePart(c, j, PartOf(old0, found, parse, j), |PartOf(old0, found, parse, j)|)
  }

  /** Faces stand in the order of their files, which are the first `n`. */
  predicate InOrder(faces: seq<Face>, n: nat)
  {
    && (forall i, j :: 0 <= i < j < |faces| ==> faces[i].file <= faces[j].file)
    && forall i :: 0 <= i < |faces| ==> faces[i].file < n
  }

  lemma OrderMore(was: seq<Face>, faces: seq<Face>, n: nat)
    requires InOrder(was, n) && AppendedFor(was, faces, n)
    ensures InOrder(faces, n + 1)
  {
    forall k | 0 <= k < |was| ensures faces[k] == was[k] {}
  }

  lemma BuiltMore(a: Content, b: Content, c: Content, old0: Option<Content>, found: seq<Found>, n: nat, parse: Found -> seq<Parsed>)
    requires old0.Some? ==> Valid(old0.value)
    requires n < |found| && Built(a, old0, found, n, parse)
    requires |b.files| == n + 1 && b.faces == a.faces && FoundOf(b, n) == found[n]
    requires forall j: nat, qs, m :: FilePart(a, j, qs, m) ==> FilePart(b, j, qs, m)
    requires forall j: nat :: j < n ==> FoundOf(b, j) == FoundOf(a, j)
    requires var ps := PartOf(old0, found, parse, n); |c.faces| == |b.faces| + |ps| && FilePart(c, n, ps, |ps|)
    requires c.files == b.files && AppendedFor(b.faces, c.faces, n)
    requires forall j: nat, qs, m :: j != n && FilePart(b, j, qs, m) ==> FilePart(c, j, qs, m)
    requires forall j: nat :: j <= n ==> FoundOf(c, j) == FoundOf(b, j)
    ensures Built(c, old0, found, n + 1, parse)
  {
    hide FilePart, PartOf, FoundOf, InOrder, AppendedFor, Valid;
    OrderMore(a.faces, c.faces, n);
    forall j: nat | j < n + 1
      ensures FoundOf(c, j) == found[j] && FilePart(c, j, PartOf(old0, found, parse, j), |PartOf(old0, found, parse, j)|)
    {
      var ps := PartOf(old0, found, parse, j);
      if j < n { assert FilePart(b, j, ps, |ps|); }
    }
  }

  /** Every file's faces are the first ones that parsing it gives. */
  ghost predicate Truthful(c: Content, parse: Found -> seq<Parsed>)
  {
    forall i: nat :: i < |c.files| ==> FilePart(c, i, Covering(parse(FoundOf(c, i))), |Positions(c.faces, i)|)
  }

  /** The old entries that are used have all the faces of their files. */
  ghost predicate ReusedComplete(old0: Option<Content>, found: seq<Found>, parse: Found -> seq<Parsed>)
  {
    forall i: nat :: i < |found| && UsedAt(old0, found, i).Some? ==>
      FileComplete(old0.value, UsedAt(old0, found, i).value, parse(found[i]))
  }

  /** Each file's faces after the limit was applied, and where they begin. */
  ghost predicate Loaded(c: Content, old0: Option<Content>, found: seq<Found>, parse: Found -> seq<Parsed>)
    requires old0.Some? ==> Valid(old0.value)
  {
    && Valid(c) && |c.files| == |found|
    && (forall i: nat :: i < |found| ==>
          FoundOf(c, i) == found[i] && FilePart(c, i, PartOf(old0, found, parse, i), |Positions(c.faces, i)|))
    && (forall i: nat :: i <= |found| ==> Start(c.faces, i) == AtMost(PartTotal(old0, found, parse, i)))
    && |c.faces| == AtMost(PartTotal(old0, found, parse, |found|))
  }

  function AtMost(n: nat): nat { if n <= MAX_FACES then n else MAX_FACES }

  /**
   * A rescan that copies the faces of unchanged files. Each file found gets the
   * faces of the old entry that was used for it, or else those that parsing it
   * gives, and the list is cut at the limit. From an index that earlier loads
   * made, the result has every face that parsing all files would give exactly
   * when these are within the limit and no entry used had been cut.
   */
  method LoadIndex(found: seq<Found>, old0: Option<Content>, parse: Found -> seq<Parsed>) returns (ix: Index)
    requires forall f :: AllUsable(parse(f))
    requires forall i :: 0 <= i < |found| ==> NoNul(found[i].path)
    requires old0.Some? ==> Valid(old0.value)
    ensures Loaded(ix.View(), old0, found, parse)
    ensures PartTotal(old0, found, parse, |found|) <= MAX_FACES ==> (Complete(ix.View(), parse) <==> ReusedComplete(old0, found, parse))
    ensures (old0.Some? ==> Truthful(old0.value, parse)) ==>
      && Truthful(ix.View(), parse)
      && (Complete(ix.View(), parse) <==> Total(found, parse) <= MAX_FACES && ReusedComplete(old0, found, parse))
  {
    hide FilePart, Covering, FoundOf, Valid, Lists, AllUsable, NoNul, PartOf, Start, OldOf, Held, UsedAt, AppendedFor, Complete, Truthful, ReusedComplete, Loaded,
      InOrder;
    ix := new Index();
    var facesOf: seq<nat>, byFile: seq<nat> := [], [];
    if old0.Some? {
      FilesInRange(old0.value);
      var a, b := GroupByFile(old0.value.faces, |old0.value.files|);
      facesOf, byFile := a[..], b[..];
    }
    EmptyIsValid();
    NothingBuilt(old0, found, parse);
    var next: nat, i: nat := 0, 0;
    while i < |found|
      invariant fresh(ix) && i <= |found| && Valid(ix.View()) && Built(ix.View(), old0, found, i, parse)
      invariant old0.Some? ==> next == NextAt(old0.value, found, i)
      invariant old0.Some? ==> forall v: nat :: v < |old0.value.files| ==> Lists(facesOf, byFile, old0.value.faces, v)
    {
      var f := found[i];
      ghost var a := ix.View();
      ix.AddFile(f);
      ghost var b := ix.View();
      var reused := false;
      if old0.Some? {
        var oi := FindOld(old0.value, next, f);
        Used(old0, found, i, parse);
        if oi < |old0.value.files| {
          reused, next := true, oi + 1;
          HeldIs(old0.value, oi);
          ix.CopyFile(i, old0.value, oi, facesOf, byFile, Held(old0.value, oi));
        }
      } else {
        Used(old0, found, i, parse);
      }
      if !reused { ix.ParseFile(i, parse(f)); }
      BuiltMore(a, b, ix.View(), old0, found, i, parse);
      i := i + 1;
    }
    ghost var all := ix.View();
    if |ix.faces| > MAX_FACES { ix.faces := ix.faces[..MAX_FACES]; }
    CutIsLoaded(all, ix.View(), old0, found, parse);
    WithinLimit(ix.View(), old0, found, parse);
    FromTruthful(ix.View(), old0, found, parse);
  }

  lemma NothingBuilt(old0: Option<Content>, found: seq<Found>, parse: Found -> seq<Parsed>)
    requires old0.Some? ==> Valid(old0.value)
    ensures Built(Content([], [], [], []), old0, found, 0, parse)
  {
  }

  /** What the search for an old entry says about the file's faces. */
  lemma Used(old0: Option<Content>, found: seq<Found>, i: nat, parse: Found -> seq<Parsed>)
    requires i < |found| && (old0.Some? ==> Valid(old0.value))
    ensures old0.None? ==> PartOf(old0, found, parse, i) == Covering(parse(found[i]))
    ensures old0.Some? ==>
      var oi := OldOf(old0.value, NextAt(old0.value, found, i), found[i]);
      if oi < |old0.value.files| then PartOf(old0, found, parse, i) == Held(old0.value, oi)
      else PartOf(old0, found, parse, i) == Covering(parse(found[i]))
  {
    hide Valid, Held, OldOf, NextAt;
  }

  /** Dropping the faces past the limit. */
  lemma CutIsLoaded(all: Content, c: Content, old0: Option<Content>, found: seq<Found>, parse: Found -> seq<Parsed>)
    requires (old0.Some? ==> Valid(old0.value)) && Valid(all) && Built(all, old0, found, |found|, parse)
    requires c == all.(faces := all.faces[..AtMost(|all.faces|)])
    ensures Loaded(c, old0, found, parse)
  {
    hide FilePart, PartOf, FoundOf, Start, ValidFace;
    var n := AtMost(|all.faces|);
    FirstFaces(all, n);
    forall v: nat | v <= |found| ensures Start(c.faces, v) == AtMost(PartTotal(old0, found, parse, v)) {
      BuiltStart(all, old0, found, |found|, parse, v);
      StartOfFirst(all.faces, n, v, |found|);
      AllBefore(all.faces, v, |found|);
    }
    forall i: nat | i < |found|
      ensures FoundOf(c, i) == found[i] && FilePart(c, i, PartOf(old0, found, parse, i), |Positions(c.faces, i)|)
    {
      var ps := PartOf(old0, found, parse, i);
      FirstPart(all, n, i, ps);
    }
  }

  lemma {:induction false} BuiltStart(c: Content, old0: Option<Content>, found: seq<Found>, n: nat, parse: Found -> seq<Parsed>, v: nat)
    requires (old0.Some? ==> Valid(old0.value)) && v <= n <= |found| && Built(c, old0, found, n, parse)
    ensures Start(c.faces, v) == PartTotal(old0, found, parse, v)
  {
    hide Valid, FoundOf, PartOf, Represents, Positions, InOrder;
    if v == 0 {
      assert Start(c.faces, 0) == 0;
    } else {
      BuiltStart(c, old0, found, n, parse, v - 1);
      assert FilePart(c, v - 1, PartOf(old0, found, parse, v - 1), |PartOf(old0, found, parse, v - 1)|);
    }
  }

  lemma AllBefore(faces: seq<Face>, v: nat, n: nat)
    requires v <= n && forall i :: 0 <= i < |faces| ==> faces[i].file < n
    ensures Start(faces, v) <= |faces|
  {
    StartIsTotal(faces, n);
    StartMonotone(faces, v, n);
  }

  /** Of faces in the order of their files, the first `n` fill the files in that order. */
  lemma {:induction false} StartOfFirst(faces: seq<Face>, n: nat, v: nat, files: nat)
    requires InOrder(faces, files) && n <= |faces| && v <= files
    ensures Start(faces[..n], v) == if Start(faces, v) <= n then Start(faces, v) else n
    decreases |faces|
  {
    hide Start;
    AllBefore(faces, v, files);
    if n == |faces| {
      assert faces[..n] == faces;
    } else {
      var m := |faces| - 1;
      StartOfFirst(faces[..m], n, v, files);
      StartPush(faces[..m], faces[m], v);
      assert faces == faces[..m] + [faces[m]] && faces[..m][..n] == faces[..n];
      if faces[m].file < v { StartIsTotal(faces[..m], v); }
    }
  }

  lemma FirstPart(c: Content, n: nat, i: nat, ps: seq<Parsed>)
    requires n <= |c.faces| && FilePart(c, i, ps, |ps|)
    ensures FilePart(c.(faces := c.faces[..n]), i, ps, |Positions(c.faces[..n], i)|)
  {
    hide Represents, Positions;
    PositionsPrefix(c.faces, n, i);
  }

  /** Below the limit a load is complete exactly when the entries it used were. */
  lemma WithinLimit(c: Content, old0: Option<Content>, found: seq<Found>, parse: Found -> seq<Parsed>)
    requires (old0.Some? ==> Valid(old0.value)) && Loaded(c, old0, found, parse)
    ensures PartTotal(old0, found, parse, |found|) <= MAX_FACES ==> (Complete(c, parse) <==> ReusedComplete(old0, found, parse))
  {
    hide Valid, FoundOf, PartOf, FilePart, UsedAt, PartTotal, Start, Covering;
    if PartTotal(old0, found, parse, |found|) <= MAX_FACES {
      forall i: nat | i < |found|
        ensures FileComplete(c, i, parse(found[i]))
                <==> (UsedAt(old0, found, i).Some? ==> FileComplete(old0.value, UsedAt(old0, found, i).value, parse(found[i])))
      {
        WholePart(c, old0, found, parse, i);
        PartComplete(c, i, old0, found, parse);
      }
    }
  }

  lemma WholePart(c: Content, old0: Option<Content>, found: seq<Found>, parse: Found -> seq<Parsed>, i: nat)
    requires (old0.Some? ==> Valid(old0.value)) && Loaded(c, old0, found, parse) && i < |found|
    requires PartTotal(old0, found, parse, |found|) <= MAX_FACES
    ensures FilePart(c, i, PartOf(old0, found, parse, i), |PartOf(old0, found, parse, i)|)
  {
    hide Valid, FoundOf, PartOf, FilePart, Positions;
    TotalGrows(old0, found, parse, i + 1, |found|);
    assert Start(c.faces, i + 1) == AtMost(PartTotal(old0, found, parse, i + 1));
    assert Start(c.faces, i) == AtMost(PartTotal(old0, found, parse, i));
  }

  lemma {:induction false} TotalGrows(old0: Option<Content>, found: seq<Found>, parse: Found -> seq<Parsed>, i: nat, n: nat)
    requires (old0.Some? ==> Valid(old0.value)) && i <= n <= |found|
    ensures PartTotal(old0, found, parse, i) <= PartTotal(old0, found, parse, n)
  {
    hide Valid, PartOf;
    if i < n { TotalGrows(old0, found, parse, i, n - 1); }
  }

  lemma PartComplete(c: Content, i: nat, old0: Option<Content>, found: seq<Found>, parse: Found -> seq<Parsed>)
    requires (old0.Some? ==> Valid(old0.value)) && i < |found|
    requires FilePart(c, i, PartOf(old0, found, parse, i), |PartOf(old0, found, parse, i)|)
    ensures FileComplete(c, i, parse(found[i]))
            <==> (UsedAt(old0, found, i).Some? ==> FileComplete(old0.value, UsedAt(old0, found, i).value, parse(found[i])))
  {
    hide Valid, FoundOf, Covering, Represents, UsedAt, Held;
    var ps, qs := PartOf(old0, found, parse, i), Covering(parse(found[i]));
    var used := UsedAt(old0, found, i);
    if used.Some? {
      var oi := used.value;
      HeldIs(old0.value, oi);
      if FilePart(c, i, qs, |qs|) { SameParts(c, i, old0.value, oi, ps, qs, |qs|); }
      if FilePart(old0.value, oi, qs, |qs|) { SameParts(old0.value, oi, c, i, ps, qs, |qs|); }
    }
  }

  /** A load keeps an index truthful, and then is complete exactly when it could be and used nothing cut. */
  lemma FromTruthful(c: Content, old0: Option<Content>, found: seq<Found>, parse: Found -> seq<Parsed>)
    requires (old0.Some? ==> Valid(old0.value)) && Loaded(c, old0, found, parse)
    ensures (old0.Some? ==> Truthful(old0.value, parse)) ==>
      && Truthful(c, parse)
      && (Complete(c, parse) <==> Total(found, parse) <= MAX_FACES && ReusedComplete(old0, found, parse))
  {
    hide Valid, FoundOf, PartOf, FilePart, UsedAt, PartTotal, Start, Covering, Positions, ReusedComplete, Complete, Total;
    if old0.Some? ==> Truthful(old0.value, parse) {
      forall i: nat | i < |found| ensures FilePart(c, i, Covering(parse(found[i])), |Positions(c.faces, i)|) {
        PartIsFirst(c, i, old0, found, parse);
      }
      TotalsAgree(old0, found, parse, |found|);
      WithinLimit(c, old0, found, parse);
      if Complete(c, parse) { CompleteTotal(c, found, parse, |found|); }
      assert found[..|found|] == found;
    }
  }

  /** A truthful old entry's faces are the first ones parsing gives. */
  lemma PartSize(old0: Option<Content>, found: seq<Found>, parse: Found -> seq<Parsed>, i: nat)
    requires (old0.Some? ==> Valid(old0.value) && Truthful(old0.value, parse)) && i < |found|
    ensures |PartOf(old0, found, parse, i)| <= |Covering(parse(found[i]))|
    ensures UsedAt(old0, found, i).Some? && FileComplete(old0.value, UsedAt(old0, found, i).value, parse(found[i])) ==>
              |PartOf(old0, found, parse, i)| == |Covering(parse(found[i]))|
    ensures UsedAt(old0, found, i).None? ==> |PartOf(old0, found, parse, i)| == |Covering(parse(found[i]))|
  {
    hide Valid, FoundOf, Covering, Represents, UsedAt, Positions, FaceHeld;
    var used := UsedAt(old0, found, i);
    if used.Some? { assert FilePart(old0.value, used.value, Covering(parse(found[i])), |Positions(old0.value.faces, used.value)|); }
  }

  lemma PartIsFirst(c: Content, i: nat, old0: Option<Content>, found: seq<Found>, parse: Found -> seq<Parsed>)
    requires (old0.Some? ==> Valid(old0.value) && Truthful(old0.value, parse)) && i < |found|
    requires FilePart(c, i, PartOf(old0, found, parse, i), |Positions(c.faces, i)|)
    ensures FilePart(c, i, Covering(parse(found[i])), |Positions(c.faces, i)|)
  {
    hide Valid, FoundOf, Covering, Represents, UsedAt, Positions, FaceHeld;
    var used := UsedAt(old0, found, i);
    if used.Some? {
      var oi, old1 := used.value, old0.value;
      var ps, qs, n := Held(old1, oi), Covering(parse(found[i])), |Positions(c.faces, i)|;
      HeldIs(old1, oi);
      var pos := Positions(old1.faces, oi);
      assert FilePart(old1, oi, qs, |pos|);
      forall k | 0 <= k < n ensures Represents(c.pool, c.cov, c.faces[Positions(c.faces, i)[k]], qs[k]) {
        SameFace(old1, old1.faces[pos[k]], c, c.faces[Positions(c.faces, i)[k]], ps[k], qs[k]);
      }
    }
  }

  lemma {:induction false} TotalsAgree(old0: Option<Content>, found: seq<Found>, parse: Found -> seq<Parsed>, n: nat)
    requires (old0.Some? ==> Valid(old0.value) && Truthful(old0.value, parse)) && n <= |found|
    ensures PartTotal(old0, found, parse, n) <= Total(found[..n], parse)
    ensures ReusedComplete(old0, found, parse) ==> PartTotal(old0, found, parse, n) == Total(found[..n], parse)
  {
    hide Valid, PartOf, Covering, UsedAt, Truthful, FileComplete;
    if n == 0 {
      assert found[..0] == [];
    } else {
      TotalsAgree(old0, found, parse, n - 1);
      PartSize(old0, found, parse, n - 1);
      assert found[..n][..n - 1] == found[..n - 1];
    }
  }

  /** A complete index has as many faces as parsing all files gives. */
  lemma {:induction false} CompleteTotal(c: Content, found: seq<Found>, parse: Found -> seq<Parsed>, n: nat)
    requires Complete(c, parse) && n <= |found| == |c.files| && forall i: nat :: i < n ==> FoundOf(c, i) == found[i]
    ensures Start(c.faces, n) == Total(found[..n], parse)
  {
    hide FoundOf, Covering, Represents, Positions;
    if n == 0 {
      assert found[..0] == [];
    } else {
      CompleteTotal(c, found, parse, n - 1);
      assert FileComplete(c, n - 1, parse(FoundOf(c, n - 1)));
      assert found[..n][..n - 1] == found[..n - 1];
    }
  }

  // ---- Loads that follow each other ----

  /**
   * The program started again and again, each time with the cache the last start
   * wrote. Unless some start's files had too many faces, the index has every
   * face, as if nothing had ever been copied.
   */
  method Starts(runs: seq<seq<Found>>, parse: Found -> seq<Parsed>) returns (c: Option<Content>)
    requires forall f :: AllUsable(parse(f))
    requires forall k, i :: 0 <= k < |runs| && 0 <= i < |runs[k]| ==> NoNul(runs[k][i].path)
    ensures runs != [] ==> c.Some? && Valid(c.value) && Truthful(c.value, parse) && |c.value.files| == |runs[|runs| - 1]|
    ensures runs != [] ==> forall i: nat :: i < |c.value.files| ==> FoundOf(c.value, i) == runs[|runs| - 1][i]
    ensures runs != [] && (forall k :: 0 <= k < |runs| ==> Total(runs[k], parse) <= MAX_FACES) ==> Complete(c.value, parse)
    ensures runs != [] && Total(runs[|runs| - 1], parse) > MAX_FACES ==> !Complete(c.value, parse)
  {
    hide Valid, Truthful, Complete, Total, AllUsable, NoNul, FoundOf, UsedAt, FilePart;
    c := None;
    var k: nat := 0;
    while k < |runs|
      invariant k <= |runs| && (k > 0 <==> c.Some?)
      invariant c.Some? ==> Valid(c.value) && Truthful(c.value, parse) && |c.value.files| == |runs[k - 1]|
      invariant c.Some? ==> forall i: nat :: i < |c.value.files| ==> FoundOf(c.value, i) == runs[k - 1][i]
      invariant c.Some? && (forall j :: 0 <= j < k ==> Total(runs[j], parse) <= MAX_FACES) ==> Complete(c.value, parse)
      invariant c.Some? && Total(runs[k - 1], parse) > MAX_FACES ==> !Complete(c.value, parse)
    {
      var ix := LoadIndex(runs[k], c, parse);
      if c.Some? && Complete(c.value, parse) { AllReusable(c.value, runs[k], parse); } else if c.None? { NoneUsed(runs[k], parse); }
      c := Some(Content(ix.files, ix.faces, ix.pool, ix.cov));
      k := k + 1;
    }
  }

  lemma AllReusable(c: Content, found: seq<Found>, parse: Found -> seq<Parsed>)
    requires Complete(c, parse)
    ensures ReusedComplete(Some(c), found, parse)
  {
    hide FileComplete, OldOf;
  }

  lemma NoneUsed(found: seq<Found>, parse: Found -> seq<Parsed>)
    ensures ReusedComplete(None, found, parse)
  {
  }

  /** What the cut leaves of the last file comes back: fewer faces than the file has, though all would fit. */
  method CutComesBack(a: Found, b: Found, parse: Found -> seq<Parsed>) returns (first: Index, second: Index)
    requires forall f :: AllUsable(parse(f))
    requires a != b && NoNul(a.path) && NoNul(b.path)
    requires 0 < |Covering(parse(b))| <= MAX_FACES < |Covering(parse(a))| + |Covering(parse(b))|
    ensures Total([b], parse) <= MAX_FACES && Truthful(first.View(), parse) && !Complete(second.View(), parse)
  {
    hide Valid, Truthful, FilePart, AllUsable, NoNul, Covering;
    first := LoadIndex([a, b], None, parse);
    NoneUsed([a, b], parse);
    var c := Content(first.files, first.faces, first.pool, first.cov);
    second := LoadIndex([b], Some(c), parse);
    TotalOfTwo(a, b, parse);
    LastIsCut(c, a, b, parse);
  }

  /** Such files: one of one face and one of as many as the limit. */
  lemma CutsHappen() returns (a: Found, b: Found, parse: Found -> seq<Parsed>)
    ensures a != b && NoNul(a.path) && NoNul(b.path) && forall f :: AllUsable(parse(f))
    ensures 0 < |Covering(parse(b))| <= MAX_FACES < |Covering(parse(a))| + |Covering(parse(b))|
  {
    a, b := Found([], 0, 1), Found([], 0, MAX_FACES);
    parse := (f: Found) => seq(f.size, _ => Parsed([], [], [Range(0, 0)]));
    var one := Parsed([], [], [Range(0, 0)]);
    assert Usable(one.ranges);
    forall f: Found ensures AllUsable(parse(f)) { assert forall k :: 0 <= k < f.size ==> parse(f)[k] == one; }
    AllCover(parse(a));
    AllCover(parse(b));
  }

  lemma {:induction false} AllCover(ps: seq<Parsed>)
    requires forall k :: 0 <= k < |ps| ==> ps[k].ranges != []
    ensures Covering(ps) == ps
  {
    if ps == [] {
    } else {
      AllCover(ps[..|ps| - 1]);
    }
  }

  lemma LastIsCut(c: Content, a: Found, b: Found, parse: Found -> seq<Parsed>)
    requires a != b && Loaded(c, None, [a, b], parse)
    requires 0 < |Covering(parse(b))| <= MAX_FACES < |Covering(parse(a))| + |Covering(parse(b))|
    ensures !ReusedComplete(Some(c), [b], parse)
  {
    hide Valid, Covering, Represents, Positions, FoundOf;
    var found := [a, b];
    assert PartOf(None, found, parse, 0) == Covering(parse(a)) && PartOf(None, found, parse, 1) == Covering(parse(b));
    assert PartTotal(None, found, parse, 0) == 0;
    assert PartTotal(None, found, parse, 1) == |Covering(parse(a))|;
    assert PartTotal(None, found, parse, 2) == |Covering(parse(a))| + |Covering(parse(b))|;
    assert Start(c.faces, 2) == Start(c.faces, 1) + |Positions(c.faces, 1)|;
    assert FoundOf(c, 0) == a && FoundOf(c, 1) == b;
    assert !SameFile(c, 0, b) && SameFile(c, 1, b);
    assert FirstOld(c, 1, b) == 1;
    assert FirstOld(c, 0, b) == 1;
    assert NextAt(c, [b], 0) == 0 && OldOf(c, 0, [b][0]) == 1;
    assert UsedAt(Some(c), [b], 0) == Some(1);
    assert !FileComplete(c, 1, parse([b][0]));
  }

  lemma TotalOfTwo(a: Found, b: Found, parse: Found -> seq<Parsed>)
    ensures Total([b], parse) == |Covering(parse(b))| && Total([a, b], parse) == |Covering(parse(a))| + |Covering(parse(b))|
  {
    hide Covering;
    assert [a, b][..1] == [a] && [a][..0] == [] && [b][..0] == [];
  }

  lemma FilesInRange(c: Content)
    requires Valid(c)
    ensures forall i :: 0 <= i < |c.faces| ==> c.faces[i].file < |c.files|
  {
    forall i | 0 <= i < |c.faces| ensures c.faces[i].file < |c.files| { assert ValidFace(c, c.faces[i]); }
  }

  lemma FirstFaces(c: Content, n: nat)
    requires Valid(c) && n <= |c.faces|
    ensures Valid(c.(faces := c.faces[..n]))
    ensures forall j: nat :: j < |c.files| ==> FoundOf(c.(faces := c.faces[..n]), j) == FoundOf(c, j)
  {
    forall k | 0 <= k < n ensures ValidFace(c.(faces := c.faces[..n]), c.faces[k]) { assert ValidFace(c, c.faces[k]); }
  }

  lemma EmptyIsValid()
    ensures Valid(Content([], [], [], []))
  {
  }

  /** Two complete indexes agree on a file: as many faces, each with the same name, fields and code points. */
  lemma SameAsRescan(a: Content, b: Content, parse: Found -> seq<Parsed>, i: nat, k: nat, cp: nat)
    requires Complete(a, parse) && Complete(b, parse) && i < |a.files| && i < |b.files| && FoundOf(a, i) == FoundOf(b, i)
    ensures |Positions(a.faces, i)| == |Positions(b.faces, i)|
    ensures k < |Positions(a.faces, i)| ==>
      var f, g := a.faces[Positions(a.faces, i)[k]], b.faces[Positions(b.faces, i)[k]];
      && CString(a.pool, f.family) == CString(b.pool, g.family) && f.rest == g.rest
      && f.covOff + f.covLen <= |a.cov| && g.covOff + g.covLen <= |b.cov| && |f.blocks| == |g.blocks| == BLOCKS
      && CoversIn(f.blocks, a.cov[f.covOff..f.covOff + f.covLen], cp) == CoversIn(g.blocks, b.cov[g.covOff..g.covOff + g.covLen], cp)
  {
    hide CoversIn, Positions, Covering, FoundOf;
    assert FileComplete(a, i, parse(FoundOf(a, i))) && FileComplete(b, i, parse(FoundOf(b, i)));
    if k < |Positions(a.faces, i)| {
      var p := Covering(parse(FoundOf(a, i)))[k];
      CoversItsRanges(a.pool, a.cov, a.faces[Positions(a.faces, i)[k]], p, cp);
      CoversItsRanges(b.pool, b.cov, b.faces[Positions(b.faces, i)[k]], p, cp);
    }
  }

  lemma CoversItsRanges(pool: bytes, cov: bytes, f: Face, p: Parsed, cp: nat)
    requires Represents(pool, cov, f, p)
    ensures CoversIn(f.blocks, cov[f.covOff..f.covOff + f.covLen], cp) <==> InRanges(p.ranges, cp)
  {
    hide CoversIn, InRanges;
  }
}
