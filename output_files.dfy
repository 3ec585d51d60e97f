/**
 * Output file naming in print.py: `get_file_name` and the loop that asks
 * it for one file name per output list and picks a renderer from the
 * name's extension.
 */
module OutputFiles {

  import Decimal

  /** A file name, or the IndexError that `str.format` raises when an argument is missing. */
  datatype NameResult = Named(path: string) | IndexError

  /** The two renderers print.py chooses between. */
  datatype Renderer = Fpdf | Matplotlib

  /** One render call of the output loop: which list, to which file, by which renderer. */
  datatype Job = Job(sequence: nat, path: string, renderer: Renderer)

  predicate EndsWith(s: string, suffix: string) {
    |suffix| <= |s| && s[|s| - |suffix|..] == suffix
  }

  /**
   * Python's `s.rsplit('.', 1)`: the whole string when it has no '.',
   * otherwise the parts before and after its last '.'.
   */
  function RSplitDot(s: string): (parts: seq<string>)
    ensures '.' !in s ==> parts == [s]
    ensures '.' in s ==> |parts| == 2 && s == parts[0] + "." + parts[1] && '.' !in parts[1]
  {
    if s == [] then [s]
    else if s[|s| - 1] == '.' then [s[..|s| - 1], ""]
    else
      var front := s[..|s| - 1];
      assert s == front + [s[|s| - 1]];
      var p := RSplitDot(front);
      if |p| == 1 then [s] else [p[0], p[1] + [s[|s| - 1]]]
  }

  /** `"{0}_{2}.{1}".format(*args)`: IndexError when fewer than three arguments are given. */
  function Format(args: seq<string>): (r: NameResult)
    ensures r == IndexError <==> |args| < 3
  {
    if |args| < 3 then IndexError else Named(args[0] + "_" + args[2] + "." + args[1])
  }

  /** A formatted name starts with argument 0 and ends with "." and argument 1. */
  lemma FormatShape(args: seq<string>)
    requires |args| >= 3
    ensures Format(args).Named?
    ensures var p := Format(args).path;
      |args[0]| <= |p| && p[..|args[0]|] == args[0] && EndsWith(p, "." + args[1])
  {
    var p := Format(args).path;
    var tail := "." + args[1];
    assert p == (args[0] + "_" + args[2]) + tail;
    assert p[|p| - |tail|..] == tail;
  }

  /**
   * `get_file_name(index, file_path)`: index 1 keeps the path; any other
   * index is inserted before the extension, which a path without '.' lacks.
   */
  function GetFileName(index: int, path: string): (r: NameResult)
    ensures index == 1 ==> r == Named(path)
    ensures index != 1 ==> (r == IndexError <==> '.' !in path)
  {
    if index == 1 then Named(path)
    else Format(RSplitDot(path) + [Decimal.IntToString(index)])
  }

  /** The file name print.py uses for output list `k` (counted from 0). */
  function OutputPath(base: string, k: nat): (r: NameResult)
    ensures k == 0 ==> r == Named(base)
    ensures k > 0 ==> (r == IndexError <==> '.' !in base)
  {
    GetFileName(k + 1, base)
  }

  /** The renderer chosen for an output file: the PDF writer for ".pdf", matplotlib otherwise. */
  function RendererFor(path: string): (r: Renderer)
    ensures '.' !in path ==> r == Matplotlib
    ensures '.' in path ==> (r == Fpdf <==> RSplitDot(path)[1] == "pdf")
  {
    PdfByExtension(path);
    if EndsWith(path, ".pdf") then Fpdf else Matplotlib
  }

  /** A name ends with ".pdf" exactly when it has a '.' and its extension is "pdf". */
  lemma PdfByExtension(path: string)
    ensures '.' !in path ==> !EndsWith(path, ".pdf")
    ensures '.' in path ==> (EndsWith(path, ".pdf") <==> RSplitDot(path)[1] == "pdf")
  {
    if '.' in path {
      PdfByDottedExtension(path);
    } else {
      NoDotNoPdf(path);
    }
  }

  lemma PdfByDottedExtension(path: string)
    requires '.' in path
    ensures EndsWith(path, ".pdf") <==> RSplitDot(path)[1] == "pdf"
  {
    var parts := RSplitDot(path);
    var e := "pdf";
    assert "." + e == ".pdf";
    DotSuffix(parts[0], parts[1], e);
  }

  lemma NoDotNoPdf(path: string)
    requires '.' !in path
    ensures !EndsWith(path, ".pdf")
  {
    if |path| >= 4 {
      var t := path[|path| - 4..];
      assert t[0] == path[|path| - 4];
    }
  }

  /** `rsplit` cuts at the '.' after which no '.' follows. */
  lemma {:induction false} RSplitDotOf(a: string, b: string)
    requires '.' !in b
    ensures RSplitDot(a + "." + b) == [a, b]
    decreases |b|
  {
    var s := a + "." + b;
    if b == [] {
      assert s[..|s| - 1] == a;
    } else {
      var front := b[..|b| - 1];
      assert s[..|s| - 1] == a + "." + front;
      assert s[|s| - 1] == b[|b| - 1];
      RSplitDotOf(a, front);
      assert front + [b[|b| - 1]] == b;
    }
  }

  /** Splitting at a '.' after which no '.' follows is unique. */
  lemma SplitAtLastDot(a: string, b: string, c: string, d: string)
    requires '.' !in b && '.' !in d
    requires a + "." + b == c + "." + d
    ensures a == c && b == d
  {
    RSplitDotOf(a, b);
    RSplitDotOf(c, d);
  }

  /**
   * For an index other than 1, the index goes between the stem and the
   * extension, where the stem may itself hold dots.
   */
  lemma DerivedName(index: int, stem: string, ext: string)
    requires index != 1 && '.' !in ext
    ensures GetFileName(index, stem + "." + ext) == Named(stem + "_" + Decimal.IntToString(index) + "." + ext)
  {
    var path := stem + "." + ext;
    assert '.' in path by { assert path[|stem|] == '.'; }
    var parts := RSplitDot(path);
    SplitAtLastDot(parts[0], parts[1], stem, ext);
  }

  /** A name ends with "." + e, for e without dots, exactly when e is its extension. */
  lemma DotSuffix(x: string, ext: string, e: string)
    requires '.' !in ext && '.' !in e
    ensures EndsWith(x + "." + ext, "." + e) <==> ext == e
  {
    var s := x + "." + ext;
    if EndsWith(s, "." + e) {
      var stem := s[..|s| - |e| - 1];
      assert s == stem + "." + e;
      SplitAtLastDot(x, ext, stem, e);
    }
    if ext == e {
      assert s[|s| - |e| - 1..] == "." + e;
    }
  }

  /** Every derived name keeps the base path's extension. */
  lemma ExtensionKept(index: int, path: string, e: string)
    requires '.' !in e
    requires GetFileName(index, path).Named?
    ensures EndsWith(GetFileName(index, path).path, "." + e) <==> EndsWith(path, "." + e)
  {
    if index != 1 {
      var parts := RSplitDot(path);
      DerivedName(index, parts[0], parts[1]);
      DotSuffix(parts[0], parts[1], e);
      DotSuffix(parts[0] + "_" + Decimal.IntToString(index), parts[1], e);
      assert parts[0] + "_" + Decimal.IntToString(index) + "." + parts[1]
          == (parts[0] + "_" + Decimal.IntToString(index)) + "." + parts[1];
    }
  }

  /** Every output file of a run goes to the same renderer as the base path. */
  lemma RendererStable(base: string, k: nat)
    requires OutputPath(base, k).Named?
    ensures RendererFor(OutputPath(base, k).path) == RendererFor(base)
  {
    var e := "pdf";
    assert "." + e == ".pdf";
    ExtensionKept(k + 1, base, e);
  }

  /** For a path with a '.', different indices give different file names: no output overwrites another. */
  lemma NamesDistinct(path: string, i: int, j: int)
    requires '.' in path && i != j
    ensures GetFileName(i, path) != GetFileName(j, path)
  {
    var parts := RSplitDot(path);
    var stem, ext := parts[0], parts[1];
    DerivedNameLength(i, stem, ext);
    DerivedNameLength(j, stem, ext);
    if i != 1 && j != 1 {
      var si, sj := Decimal.IntToString(i), Decimal.IntToString(j);
      DerivedName(i, stem, ext);
      DerivedName(j, stem, ext);
      if GetFileName(i, path) == GetFileName(j, path) {
        NameCancel(stem, si, sj, ext);
        Decimal.IntToStringInjective(i, j);
      }
    }
  }

  /** A derived name determines the index text inserted into it. */
  lemma NameCancel(stem: string, si: string, sj: string, ext: string)
    requires stem + "_" + si + "." + ext == stem + "_" + sj + "." + ext
    ensures si == sj
  {
    var ni, nj := stem + "_" + si + "." + ext, stem + "_" + sj + "." + ext;
    assert |si| == |sj|;
    assert si == ni[|stem| + 1..|stem| + 1 + |si|];
    assert sj == nj[|stem| + 1..|stem| + 1 + |sj|];
  }

  lemma DerivedNameLength(index: int, stem: string, ext: string)
    requires '.' !in ext
    ensures GetFileName(index, stem + "." + ext).Named?
    ensures index != 1 ==>
              |GetFileName(index, stem + "." + ext).path| == |stem + "." + ext| + 1 + |Decimal.IntToString(index)|
  {
    if index != 1 {
      DerivedName(index, stem, ext);
    }
  }

  /** "deck.pdf" is kept for the first output list; the second goes to "deck_2.pdf". */
  lemma DeckPdfNames()
    ensures OutputPath("deck.pdf", 0) == Named("deck.pdf")
    ensures OutputPath("deck.pdf", 1) == Named("deck_2.pdf")
  {
    var stem, ext := "deck", "pdf";
    assert stem + "." + ext == "deck.pdf";
    DerivedName(2, stem, ext);
    assert Decimal.IntToString(2) == "2";
    assert stem + "_" + "2" + "." + ext == "deck_2.pdf";
  }

  /** The third output list for "deck.pdf" goes to "deck_3.pdf". */
  lemma DeckPdfThirdName()
    ensures OutputPath("deck.pdf", 2) == Named("deck_3.pdf")
  {
    var stem, ext := "deck", "pdf";
    assert stem + "." + ext == "deck.pdf";
    DerivedName(3, stem, ext);
    assert Decimal.IntToString(3) == "3";
    assert stem + "_" + "3" + "." + ext == "deck_3.pdf";
  }

  /**
   * Jobs for the first `|jobs|` output lists as the loop makes them: in
   * order, each under its derived name and with the base path's renderer.
   */
  predicate NamedInOrder(base: string, jobs: seq<Job>) {
    forall k :: 0 <= k < |jobs| ==>
      jobs[k].sequence == k && OutputPath(base, k) == Named(jobs[k].path) && jobs[k].renderer == RendererFor(base)
  }

  /** No two jobs write the same file. */
  predicate DistinctPaths(jobs: seq<Job>) {
    forall a, b :: 0 <= a < b < |jobs| ==> jobs[a].path != jobs[b].path
  }

  lemma NamedInOrderExtend(base: string, jobs: seq<Job>, job: Job)
    requires NamedInOrder(base, jobs)
    requires job.sequence == |jobs| && OutputPath(base, |jobs|) == Named(job.path) && job.renderer == RendererFor(base)
    ensures NamedInOrder(base, jobs + [job])
  {
    var grown := jobs + [job];
    forall k | 0 <= k < |grown|
      ensures grown[k].sequence == k && OutputPath(base, k) == Named(grown[k].path) && grown[k].renderer == RendererFor(base)
    {
      if k < |jobs| {
        assert grown[k] == jobs[k];
      }
    }
  }

  lemma DistinctPathsExtend(jobs: seq<Job>, job: Job)
    requires DistinctPaths(jobs)
    requires forall k :: 0 <= k < |jobs| ==> jobs[k].path != job.path
    ensures DistinctPaths(jobs + [job])
  {
    var grown := jobs + [job];
    forall a, b | 0 <= a < b < |grown| ensures grown[a].path != grown[b].path {
      assert grown[a] == jobs[a];
    }
  }

  /**
   * The output loop of print.py: for each of the `n` output lists, name its
   * file and choose its renderer. A base path without '.' fails at the
   * second list, after the first has been rendered under the base path.
   */
  method PlanOutputs(base: string, n: nat) returns (jobs: seq<Job>, ok: bool)
    ensures ok <==> (n <= 1 || '.' in base)
    ensures |jobs| == if ok then n else 1
    ensures forall k :: 0 <= k < |jobs| ==> jobs[k].sequence == k && OutputPath(base, k) == Named(jobs[k].path)
    ensures forall k :: 0 <= k < |jobs| ==> jobs[k].renderer == RendererFor(base)
    ensures forall a, b :: 0 <= a < b < |jobs| ==> jobs[a].path != jobs[b].path
  {
    jobs := [];
    var index := 0;
    while index < n
      invariant 0 <= index <= n && |jobs| == index
      invariant index >= 2 ==> '.' in base
      invariant NamedInOrder(base, jobs) && DistinctPaths(jobs)
    {
      match GetFileName(index + 1, base) {
        case IndexError =>
          ok := false;
          return;
        case Named(path) =>
          var job := Job(index, path, RendererFor(path));
          RendererStable(base, index);
          NamedInOrderExtend(base, jobs, job);
          forall k | 0 <= k < index ensures jobs[k].path != path {
            NamesDistinct(base, k + 1, index + 1);
          }
          DistinctPathsExtend(jobs, job);
          jobs := jobs + [job];
      }
      index := index + 1;
    }
    ok := true;
  }
}
