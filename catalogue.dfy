/**
 * `disk_image_list` of lib/utils.py: the image catalogue.
 *
 * Every file of every subdirectory of every source directory is classified
 * by the last two dots of its name and filed under a group key
 * `source/subdir/base`. A group that saw an `.img` or `.img.gz` file becomes
 * a `DiskImage`; the catalogue is sorted by name, then directory.
 *
 * The directory listings and the lines of each file stand in for
 * `os.listdir` and `open`: a `Source` holds what listing it yields.
 */
module Catalogue {

  import opened Wrappers
  import Text
  import Paths
  import Sorting
  import Utils

  /** A listed file, with the lines reading it would yield (used for `.vars` files only). */
  datatype File = File(name: string, lines: seq<string>)

  datatype SubDir = SubDir(name: string, files: seq<File>)

  /** A source directory and, in listing order, its subdirectories. */
  datatype Source = Source(path: string, subdirs: seq<SubDir>)

  /** What the last two dots of a file name say about the file. */
  datatype Kind = PostScript(tag: string) | GzImage | RawImage | VarsFile | Unrecognised

  datatype Classified = Classified(base: string, kind: Kind)

  predicate IsImage(k: Kind)
  {
    k == GzImage || k == RawImage
  }

  /**
   * Classify a file name by splitting its reversal at the first two dots,
   * that is, the name at its last two dots.
   */
  function Classify(fl: string): Classified
  {
    var spl := Text.SplitAtMost(Text.Reverse(fl), '.', 2);
    Classified(Text.Reverse(spl[|spl| - 1]), KindOf(spl))
  }

  /** The kind the reversed pieces `spl` of a name say, the last piece being the base. */
  function KindOf(spl: seq<string>): Kind
  {
    if |spl| == 3 then
      if spl[1] == "tsop" then PostScript(Text.Reverse(spl[0]))
      else if spl[1] == "gmi" && spl[0] == "zg" then GzImage
      else Unrecognised
    else if |spl| == 2 then
      if spl[0] == "gmi" then RawImage
      else if spl[0] == "srav" then VarsFile
      else Unrecognised
    else Unrecognised
  }

  lemma GzReversed()
    ensures Text.Reverse(".img.gz") == "zg" + ['.'] + "gmi" + ['.']
  {
  }

  lemma PostReversed()
    ensures Text.Reverse(".post.") == ['.'] + "tsop" + ['.']
  {
  }

  lemma ImgReversed()
    ensures Text.Reverse(".img") == "gmi" + ['.']
  {
  }

  lemma VarsReversed()
    ensures Text.Reverse(".vars") == "srav" + ['.']
  {
  }

  /** The reversed suffixes hold no dot. */
  lemma DotFreeTags()
    ensures '.' !in "zg" && '.' !in "gmi" && '.' !in "tsop" && '.' !in "srav"
  {
  }

  /** What `KindOf` says about the pieces of each recognised name. */
  lemma KindOfGz(x: string)
    ensures KindOf(["zg", "gmi", x]) == GzImage
  {
  }

  lemma KindOfPost(y: string, x: string)
    ensures KindOf([y, "tsop", x]) == PostScript(Text.Reverse(y))
  {
  }

  lemma KindOfImg(x: string)
    ensures KindOf(["gmi", x]) == RawImage
  {
  }

  lemma KindOfVars(x: string)
    ensures KindOf(["srav", x]) == VarsFile
  {
  }

  /** `Classify` reads the kind off the pieces and the base off the last one. */
  lemma ClassifyPieces(fl: string, spl: seq<string>)
    requires Text.SplitAtMost(Text.Reverse(fl), '.', 2) == spl
    ensures Classify(fl) == Classified(Text.Reverse(spl[|spl| - 1]), KindOf(spl))
  {
  }

  /** `B.img.gz` is a compressed image of base `B`, whatever dots `B` holds. */
  lemma ClassifyGzImage(b: string)
    ensures Classify(b + ".img.gz") == Classified(b, GzImage)
  {
    GzReversed();
    DotFreeTags();
    Text.ReverseAppend(b, ".img.gz");
    Text.SplitTwice("zg", "gmi", Text.Reverse(b), '.');
    ClassifyPieces(b + ".img.gz", ["zg", "gmi", Text.Reverse(b)]);
    KindOfGz(Text.Reverse(b));
    Text.ReverseReverse(b);
  }

  /** `B.post.L` is post-install script `L` of base `B` when `L` holds no dot. */
  lemma ClassifyPostScript(b: string, l: string)
    requires '.' !in l
    ensures Classify(b + ".post." + l) == Classified(b, PostScript(l))
  {
    PostReversed();
    DotFreeTags();
    Text.ReverseAppend(b + ".post.", l);
    Text.ReverseAppend(b, ".post.");
    Text.ReverseMembers(l, '.');
    Text.Regroup5(Text.Reverse(l), ['.'], "tsop", ['.'], Text.Reverse(b));
    Text.SplitTwice(Text.Reverse(l), "tsop", Text.Reverse(b), '.');
    ClassifyPieces(b + ".post." + l, [Text.Reverse(l), "tsop", Text.Reverse(b)]);
    KindOfPost(Text.Reverse(l), Text.Reverse(b));
    Text.ReverseReverse(b);
    Text.ReverseReverse(l);
  }

  /** `B.img` is an uncompressed image of base `B` when `B` holds no dot. */
  lemma ClassifyRawImage(b: string)
    requires '.' !in b
    ensures Classify(b + ".img") == Classified(b, RawImage)
  {
    ImgReversed();
    DotFreeTags();
    Text.ReverseAppend(b, ".img");
    Text.ReverseMembers(b, '.');
    Text.SplitOnce("gmi", Text.Reverse(b), '.');
    ClassifyPieces(b + ".img", ["gmi", Text.Reverse(b)]);
    KindOfImg(Text.Reverse(b));
    Text.ReverseReverse(b);
  }

  /** `B.vars` is the variables file of base `B` when `B` holds no dot. */
  lemma ClassifyVarsFile(b: string)
    requires '.' !in b
    ensures Classify(b + ".vars") == Classified(b, VarsFile)
  {
    VarsReversed();
    DotFreeTags();
    Text.ReverseAppend(b, ".vars");
    Text.ReverseMembers(b, '.');
    Text.SplitOnce("srav", Text.Reverse(b), '.');
    ClassifyPieces(b + ".vars", ["srav", Text.Reverse(b)]);
    KindOfVars(Text.Reverse(b));
    Text.ReverseReverse(b);
  }

  /** The suffixes the reversed pieces spell, read forwards. */
  lemma ImgSuffix()
    ensures ['.'] + Text.Reverse("gmi") == ".img"
  {
  }

  lemma VarsSuffix()
    ensures ['.'] + Text.Reverse("srav") == ".vars"
  {
  }

  lemma PostSuffix()
    ensures ['.'] + Text.Reverse("tsop") + ['.'] == ".post."
  {
  }

  lemma GzSuffix()
    ensures ['.'] + Text.Reverse("gmi") + ['.'] + Text.Reverse("zg") == ".img.gz"
  {
    ImgSuffix();
  }

  /** The name of a file whose reversal splits into two pieces. */
  lemma TwoPieces(fl: string)
    requires |Text.SplitAtMost(Text.Reverse(fl), '.', 2)| == 2
    ensures var spl := Text.SplitAtMost(Text.Reverse(fl), '.', 2);
      && fl == Text.Reverse(spl[1]) + (['.'] + Text.Reverse(spl[0]))
      && '.' !in Text.Reverse(spl[1])
  {
    var r := Text.Reverse(fl);
    var spl := Text.SplitAtMost(r, '.', 2);
    Text.SplitAtMostSpec(r, '.', 2);
    Text.ReverseReverse(fl);
    assert spl[1..] == [spl[1]];
    assert r == spl[0] + ['.'] + spl[1];
    Text.ReverseAround(spl[0], '.', spl[1]);
    Text.ReverseMembers(spl[1], '.');
  }

  /** The name of a file whose reversal splits into three pieces. */
  lemma ThreePieces(fl: string)
    requires |Text.SplitAtMost(Text.Reverse(fl), '.', 2)| == 3
    ensures var spl := Text.SplitAtMost(Text.Reverse(fl), '.', 2);
      && fl == Text.Reverse(spl[2]) + ['.'] + Text.Reverse(spl[1]) + ['.'] + Text.Reverse(spl[0])
      && fl == Text.Reverse(spl[2]) + (['.'] + Text.Reverse(spl[1]) + ['.'] + Text.Reverse(spl[0]))
      && fl == Text.Reverse(spl[2]) + (['.'] + Text.Reverse(spl[1]) + ['.']) + Text.Reverse(spl[0])
      && '.' !in Text.Reverse(spl[0])
  {
    var r := Text.Reverse(fl);
    var spl := Text.SplitAtMost(r, '.', 2);
    Text.SplitAtMostSpec(r, '.', 2);
    Text.ReverseReverse(fl);
    assert spl[1..][1..] == [spl[2]];
    assert Text.Join(spl[1..][1..], '.') == spl[2];
    assert Text.Join(spl[1..], '.') == spl[1] + ['.'] + spl[2];
    assert r == spl[0] + ['.'] + (spl[1] + ['.'] + spl[2]);
    Text.ReverseAround(spl[0], '.', spl[1] + ['.'] + spl[2]);
    Text.ReverseAround(spl[1], '.', spl[2]);
    Text.ReverseMembers(spl[0], '.');
    Text.Regroup5(Text.Reverse(spl[2]), ['.'], Text.Reverse(spl[1]), ['.'], Text.Reverse(spl[0]));
  }

  /** A file is filed under a base that starts its name. */
  lemma ClassifyBasePrefix(fl: string)
    ensures Classify(fl).base <= fl
  {
    var spl := Text.SplitAtMost(Text.Reverse(fl), '.', 2);
    if |spl| == 1 {
      Text.SplitAtMostSpec(Text.Reverse(fl), '.', 2);
      Text.ReverseReverse(fl);
    } else if |spl| == 2 {
      TwoPieces(fl);
    } else {
      ThreePieces(fl);
    }
  }

  /** A compressed image is exactly a name ending in `.img.gz`. */
  lemma ClassifyGzShape(fl: string)
    requires Classify(fl).kind == GzImage
    ensures fl == Classify(fl).base + ".img.gz"
  {
    var spl := Text.SplitAtMost(Text.Reverse(fl), '.', 2);
    assert KindOf(spl) == GzImage;
    ThreePieces(fl);
    GzSuffix();
  }

  /** A post-install script is a name `B.post.L` with a dot-free label `L`. */
  lemma ClassifyPostShape(fl: string)
    requires Classify(fl).kind.PostScript?
    ensures fl == Classify(fl).base + ".post." + Classify(fl).kind.tag
    ensures '.' !in Classify(fl).kind.tag
  {
    var spl := Text.SplitAtMost(Text.Reverse(fl), '.', 2);
    assert KindOf(spl) == PostScript(Text.Reverse(spl[0]));
    ThreePieces(fl);
    PostSuffix();
  }

  /** An uncompressed image is a name `B.img` with a dot-free base. */
  lemma ClassifyRawShape(fl: string)
    requires Classify(fl).kind == RawImage
    ensures fl == Classify(fl).base + ".img" && '.' !in Classify(fl).base
  {
    var spl := Text.SplitAtMost(Text.Reverse(fl), '.', 2);
    assert KindOf(spl) == RawImage;
    TwoPieces(fl);
    ImgSuffix();
  }

  /** A variables file is a name `B.vars` with a dot-free base. */
  lemma ClassifyVarsShape(fl: string)
    requires Classify(fl).kind == VarsFile
    ensures fl == Classify(fl).base + ".vars" && '.' !in Classify(fl).base
  {
    var spl := Text.SplitAtMost(Text.Reverse(fl), '.', 2);
    assert KindOf(spl) == VarsFile;
    TwoPieces(fl);
    VarsSuffix();
  }

  /** A listed file together with the directory `dr/sdr` it was listed in. */
  datatype Entry = Entry(pth: string, file: File)

  /** The files of one subdirectory, in listing order. */
  function FileEntries(pth: string, files: seq<File>): seq<Entry>
  {
    seq(|files|, k requires 0 <= k < |files| => Entry(pth, files[k]))
  }

  /** The files of the subdirectories of source `dr`, subdirectory by subdirectory. */
  function SubDirEntries(dr: string, subdirs: seq<SubDir>): seq<Entry>
  {
    if subdirs == [] then []
    else
      var sd := subdirs[|subdirs| - 1];
      SubDirEntries(dr, subdirs[..|subdirs| - 1]) + FileEntries(dr + "/" + sd.name, sd.files)
  }

  /** Every file the three nested loops visit, in the order they visit them. */
  function Entries(sources: seq<Source>): seq<Entry>
  {
    if sources == [] then []
    else
      var src := sources[|sources| - 1];
      Entries(sources[..|sources| - 1]) + SubDirEntries(src.path, src.subdirs)
  }

  /** A file as the scan files it: its group key `pth/base`, its kind and its lines. */
  datatype Filed = Filed(key: string, kind: Kind, lines: seq<string>)

  function FileOf(e: Entry): Filed
  {
    var c := Classify(e.file.name);
    Filed(e.pth + "/" + c.base, c.kind, e.file.lines)
  }

  function Filing(es: seq<Entry>): seq<Filed>
  {
    seq(|es|, i requires 0 <= i < |es| => FileOf(es[i]))
  }

  /** One line of a `.vars` file: `name:prompt`, split at the first colon after `rstrip()`. */
  function ParseVarsLine(m: map<string, string>, line: string): map<string, string>
  {
    var parts := Text.SplitAtMost(Text.RStrip(line), ':', 1);
    if |parts| > 1 then m[parts[0] := parts[1]] else m
  }

  function ParseVars(m: map<string, string>, lines: seq<string>): map<string, string>
  {
    if lines == [] then m
    else ParseVarsLine(ParseVars(m, lines[..|lines| - 1]), lines[|lines| - 1])
  }

  /** What `file_groups[key]` holds: post labels, the image format if any, the variables. */
  datatype Group = Group(post: seq<string>, fileFormat: Option<string>, variables: map<string, string>)

  const EmptyGroup := Group([], None, map[])

  /** The format string a kind of file records, if it is an image. */
  function FormatOf(k: Kind): Option<string>
  {
    match k
    case GzImage => Some("img.gz")
    case RawImage => Some("img")
    case _ => None
  }

  /** What one classified file contributes to its group. */
  function Apply(g: Group, kind: Kind, lines: seq<string>): Group
  {
    match kind
    case PostScript(tag) => g.(post := g.post + [tag])
    case GzImage => g.(fileFormat := Some("img.gz"))
    case RawImage => g.(fileFormat := Some("img"))
    case VarsFile => g.(variables := ParseVars(g.variables, lines))
    case Unrecognised => g
  }

  /** The dictionary `file_groups`, with its keys in insertion order. */
  datatype State = State(groups: map<string, Group>, order: seq<string>)

  /** The keys listed in `order` are those of `groups`, each once. */
  ghost predicate StateWF(st: State)
  {
    && (forall k :: k in st.order <==> k in st.groups)
    && (forall i, j :: 0 <= i < j < |st.order| ==> st.order[i] != st.order[j])
  }

  /** The body of the innermost loop: file one entry, creating its group first if needed. */
  function Step(st: State, e: Filed): (r: State)
    ensures StateWF(st) ==> StateWF(r)
    ensures e.key in r.groups
  {
    var key := e.key;
    var g := if key in st.groups then st.groups[key] else EmptyGroup;
    var order := if key in st.groups then st.order else st.order + [key];
    State(st.groups[key := Apply(g, e.kind, e.lines)], order)
  }

  /** `file_groups` after the scan has visited the entries `es`. */
  function Fold(es: seq<Filed>): (st: State)
    ensures StateWF(st)
  {
    if es == [] then State(map[], []) else Step(Fold(es[..|es| - 1]), es[|es| - 1])
  }

  /** The group of key `k` built from the entries of `es` with that key only. */
  function GroupOf(es: seq<Filed>, k: string): Group
  {
    if es == [] then EmptyGroup
    else
      var e := es[|es| - 1];
      var g := GroupOf(es[..|es| - 1], k);
      if e.key == k then Apply(g, e.kind, e.lines) else g
  }

  function ImageOf(key: string, g: Group): Utils.DiskImage
    requires g.fileFormat.Some?
  {
    Utils.NewDiskImage(key, g.fileFormat.value, g.post, g.variables)
  }

  /** The second loop: an image for every group, in key order, that saw an image file. */
  function ImagesOf(groups: map<string, Group>, order: seq<string>): seq<Utils.DiskImage>
    requires forall k :: k in order ==> k in groups
  {
    if order == [] then []
    else
      var key := order[|order| - 1];
      var prev := ImagesOf(groups, order[..|order| - 1]);
      if groups[key].fileFormat.Some? then prev + [ImageOf(key, groups[key])] else prev
  }

  /** `disk_image_list(*sources)` as a value: the images, sorted. */
  function Catalogue(sources: seq<Source>): seq<Utils.DiskImage>
  {
    var st := Fold(Filing(Entries(sources)));
    Sorting.Sort(ImagesOf(st.groups, st.order), Utils.ImageLt)
  }

  /** Some file among `es` is filed under `k`. */
  ghost predicate Files(es: seq<Filed>, k: string)
  {
    exists i :: 0 <= i < |es| && es[i].key == k
  }

  lemma FilesSnoc(es: seq<Filed>, k: string)
    requires es != []
    ensures Files(es, k) <==> Files(es[..|es| - 1], k) || es[|es| - 1].key == k
  {
    var pre := es[..|es| - 1];
    if Files(pre, k) {
      var i :| 0 <= i < |pre| && pre[i].key == k;
      assert es[i] == pre[i];
    }
    if Files(es, k) {
      var i :| 0 <= i < |es| && es[i].key == k;
      if i < |pre| {
        assert pre[i] == es[i];
      }
    }
  }

  /** A key has a group exactly when some visited file is filed under it. */
  lemma {:induction false} FoldKeys(es: seq<Filed>, k: string)
    ensures k in Fold(es).groups <==> Files(es, k)
  {
    if es != [] {
      FoldKeys(es[..|es| - 1], k);
      FilesSnoc(es, k);
    }
  }

  /** The group of a key depends only on the files filed under that key. */
  lemma {:induction false} FoldGroupOf(es: seq<Filed>, k: string)
    requires k in Fold(es).groups
    ensures Fold(es).groups[k] == GroupOf(es, k)
  {
    var pre := es[..|es| - 1];
    var e := es[|es| - 1];
    if k in Fold(pre).groups {
      FoldGroupOf(pre, k);
    } else {
      assert e.key == k;
      FoldKeys(pre, k);
      NoKeyEmptyGroup(pre, k);
    }
  }

  /** No file filed under `k`: its group is empty. */
  lemma {:induction false} NoKeyEmptyGroup(es: seq<Filed>, k: string)
    requires !Files(es, k)
    ensures GroupOf(es, k) == EmptyGroup
  {
    if es != [] {
      FilesSnoc(es, k);
      NoKeyEmptyGroup(es[..|es| - 1], k);
    }
  }

  /** `es[i]` is the last image file among `es` filed under `k`. */
  ghost predicate LastImageAt(es: seq<Filed>, k: string, i: int)
  {
    && 0 <= i < |es| && es[i].key == k && IsImage(es[i].kind)
    && (forall j :: i < j < |es| && es[j].key == k ==> !IsImage(es[j].kind))
  }

  /** What one filed file does to its group's format. */
  lemma ApplyFormat(g: Group, kind: Kind, lines: seq<string>)
    ensures Apply(g, kind, lines).fileFormat == if IsImage(kind) then FormatOf(kind) else g.fileFormat
  {
  }

  /** A group has an image format exactly when an image file was filed under its key. */
  lemma {:induction false} GroupHasFormat(es: seq<Filed>, k: string)
    ensures GroupOf(es, k).fileFormat.Some? <==>
            exists i :: 0 <= i < |es| && es[i].key == k && IsImage(es[i].kind)
  {
    if es != [] {
      var pre := es[..|es| - 1];
      var e := es[|es| - 1];
      GroupHasFormat(pre, k);
      if e.key == k {
        ApplyFormat(GroupOf(pre, k), e.kind, e.lines);
      }
      if exists i :: 0 <= i < |pre| && pre[i].key == k && IsImage(pre[i].kind) {
        var i :| 0 <= i < |pre| && pre[i].key == k && IsImage(pre[i].kind);
        assert es[i] == pre[i];
      }
      if exists i :: 0 <= i < |es| && es[i].key == k && IsImage(es[i].kind) {
        var i :| 0 <= i < |es| && es[i].key == k && IsImage(es[i].kind);
        if i < |pre| {
          assert pre[i] == es[i];
        }
      }
    }
  }

  /**
   * A group's format is that of the last image file filed under its key:
   * with both `B.img` and `B.img.gz` listed, the later one wins.
   */
  lemma {:induction false} GroupLastFormat(es: seq<Filed>, k: string)
    requires GroupOf(es, k).fileFormat.Some?
    ensures exists i :: LastImageAt(es, k, i) && GroupOf(es, k).fileFormat == FormatOf(es[i].kind)
  {
    var pre := es[..|es| - 1];
    var e := es[|es| - 1];
    if e.key == k {
      ApplyFormat(GroupOf(pre, k), e.kind, e.lines);
    }
    if e.key == k && IsImage(e.kind) {
      assert LastImageAt(es, k, |es| - 1);
    } else {
      GroupLastFormat(pre, k);
      var i :| LastImageAt(pre, k, i) && GroupOf(pre, k).fileFormat == FormatOf(pre[i].kind);
      assert es[i] == pre[i];
      forall j | i < j < |es| && es[j].key == k
        ensures !IsImage(es[j].kind)
      {
        if j < |pre| {
          assert es[j] == pre[j];
        }
      }
      assert LastImageAt(es, k, i);
    }
  }

  /** The post-install labels of a group are those of the `.post.` files filed under its key. */
  lemma {:induction false} GroupPost(es: seq<Filed>, k: string, l: string)
    ensures l in GroupOf(es, k).post <==>
            exists i :: 0 <= i < |es| && es[i].key == k && es[i].kind == PostScript(l)
  {
    if es != [] {
      var pre := es[..|es| - 1];
      GroupPost(pre, k, l);
      if exists i :: 0 <= i < |pre| && pre[i].key == k && pre[i].kind == PostScript(l) {
        var i :| 0 <= i < |pre| && pre[i].key == k && pre[i].kind == PostScript(l);
        assert es[i] == pre[i];
      }
      if exists i :: 0 <= i < |es| && es[i].key == k && es[i].kind == PostScript(l) {
        var i :| 0 <= i < |es| && es[i].key == k && es[i].kind == PostScript(l);
        if i < |pre| {
          assert pre[i] == es[i];
        }
      }
    }
  }

  /** The lines of all `.vars` files filed under `k`, one file after another. */
  function VarsLines(es: seq<Filed>, k: string): seq<string>
  {
    if es == [] then []
    else
      var e := es[|es| - 1];
      VarsLines(es[..|es| - 1], k) + (if e.key == k && e.kind == VarsFile then e.lines else [])
  }

  /** Reading two runs of lines one after the other is reading their concatenation. */
  lemma {:induction false} ParseVarsAppend(m: map<string, string>, a: seq<string>, b: seq<string>)
    ensures ParseVars(m, a + b) == ParseVars(ParseVars(m, a), b)
  {
    if b == [] {
      assert a + b == a;
    } else {
      assert (a + b)[..|a + b| - 1] == a + b[..|b| - 1];
      ParseVarsAppend(m, a, b[..|b| - 1]);
    }
  }

  /** A group's variables are read from its `.vars` files' lines, in listing order. */
  lemma {:induction false} GroupVars(es: seq<Filed>, k: string)
    ensures GroupOf(es, k).variables == ParseVars(map[], VarsLines(es, k))
  {
    if es != [] {
      var pre := es[..|es| - 1];
      var e := es[|es| - 1];
      GroupVars(pre, k);
      if e.key == k && e.kind == VarsFile {
        ParseVarsAppend(map[], VarsLines(pre, k), e.lines);
      } else {
        assert VarsLines(es, k) == VarsLines(pre, k) + [];
        assert VarsLines(pre, k) + [] == VarsLines(pre, k);
      }
    }
  }

  /**
   * `line.rstrip().split(':', 1)`: a line whose stripped text holds a colon
   * sets the name before the first colon to the text after it; any other
   * line leaves the variables as they are.
   */
  lemma ParseVarsLineSpec(m: map<string, string>, line: string)
    ensures var s := Text.RStrip(line);
      var i := Text.Find(s, ':');
      ParseVarsLine(m, line) == if i < |s| then m[s[..i] := s[i + 1..]] else m
  {
    var s := Text.RStrip(line);
    var i := Text.Find(s, ':');
    if i < |s| {
      assert Text.SplitAtMost(s, ':', 1) == [s[..i]] + Text.SplitAtMost(s[i + 1..], ':', 0);
      assert Text.SplitAtMost(s[i + 1..], ':', 0) == [s[i + 1..]];
    }
  }

  /** A line `name:prompt` sets `name` to the prompt without its trailing whitespace. */
  lemma VarsLineSets(m: map<string, string>, name: string, prompt: string)
    requires ':' !in name
    ensures ParseVarsLine(m, name + ":" + prompt) == m[name := Text.RStrip(prompt)]
  {
    Text.RStripAfter(name + ":", prompt);
    assert name + ":" + prompt == (name + ":") + prompt;
    var s := Text.RStrip(name + ":" + prompt);
    assert s == name + [':'] + Text.RStrip(prompt);
    Text.FindAfter(name, ':', Text.RStrip(prompt));
    assert s[..|name|] == name && s[|name| + 1..] == Text.RStrip(prompt);
    ParseVarsLineSpec(m, name + ":" + prompt);
  }

  /** The line sets variable `k`. */
  ghost predicate Defines(line: string, k: string)
  {
    var s := Text.RStrip(line);
    Text.Find(s, ':') < |s| && s[..Text.Find(s, ':')] == k
  }

  /** The value a line gives the variable it sets. */
  function ValueOf(line: string): string
  {
    var s := Text.RStrip(line);
    if Text.Find(s, ':') < |s| then s[Text.Find(s, ':') + 1..] else []
  }

  /** What one line does to variable `k`. */
  lemma ParseVarsLineAt(m: map<string, string>, line: string, k: string)
    ensures k in ParseVarsLine(m, line) <==> k in m || Defines(line, k)
    ensures Defines(line, k) ==> ParseVarsLine(m, line)[k] == ValueOf(line)
    ensures !Defines(line, k) && k in m ==> ParseVarsLine(m, line)[k] == m[k]
  {
    ParseVarsLineSpec(m, line);
  }

  /** Some line of `lines` sets variable `k`. */
  ghost predicate SomeDefines(lines: seq<string>, k: string)
  {
    exists j :: 0 <= j < |lines| && Defines(lines[j], k)
  }

  lemma SomeDefinesSnoc(lines: seq<string>, k: string)
    requires lines != []
    ensures SomeDefines(lines, k) <==> SomeDefines(lines[..|lines| - 1], k) || Defines(lines[|lines| - 1], k)
  {
    var pre := lines[..|lines| - 1];
    if SomeDefines(pre, k) {
      var j :| 0 <= j < |pre| && Defines(pre[j], k);
      assert lines[j] == pre[j];
    }
    if SomeDefines(lines, k) {
      var j :| 0 <= j < |lines| && Defines(lines[j], k);
      if j < |pre| {
        assert pre[j] == lines[j];
      }
    }
  }

  /** Reading lines keeps the variables already set and adds those some line sets. */
  lemma {:induction false} ParseVarsKeys(m: map<string, string>, lines: seq<string>, k: string)
    ensures k in ParseVars(m, lines) <==> k in m || SomeDefines(lines, k)
  {
    if lines != [] {
      var pre := lines[..|lines| - 1];
      ParseVarsKeys(m, pre, k);
      ParseVarsLineAt(ParseVars(m, pre), lines[|lines| - 1], k);
      SomeDefinesSnoc(lines, k);
    }
  }

  /** The last line that sets a variable gives its value. */
  lemma {:induction false} ParseVarsLastWins(m: map<string, string>, lines: seq<string>, k: string, j: nat)
    requires j < |lines| && Defines(lines[j], k)
    requires forall j' :: j < j' < |lines| ==> !Defines(lines[j'], k)
    ensures k in ParseVars(m, lines) && ParseVars(m, lines)[k] == ValueOf(lines[j])
  {
    var pre := lines[..|lines| - 1];
    var last := lines[|lines| - 1];
    if j < |pre| {
      forall j' | j < j' < |pre|
        ensures !Defines(pre[j'], k)
      {
        assert pre[j'] == lines[j'];
      }
      assert pre[j] == lines[j];
      ParseVarsLastWins(m, pre, k, j);
    }
    ParseVarsLineAt(ParseVars(m, pre), last, k);
  }

  /** A variable no line sets keeps its value. */
  lemma {:induction false} ParseVarsKeeps(m: map<string, string>, lines: seq<string>, k: string)
    requires k in m
    requires forall j :: 0 <= j < |lines| ==> !Defines(lines[j], k)
    ensures k in ParseVars(m, lines) && ParseVars(m, lines)[k] == m[k]
  {
    if lines != [] {
      var pre := lines[..|lines| - 1];
      forall j | 0 <= j < |pre|
        ensures !Defines(pre[j], k)
      {
        assert pre[j] == lines[j];
      }
      ParseVarsKeeps(m, pre, k);
      ParseVarsLineAt(ParseVars(m, pre), lines[|lines| - 1], k);
    }
  }

  /** The group of `key` has an image format and makes image `img`. */
  ghost predicate Yields(groups: map<string, Group>, key: string, img: Utils.DiskImage)
  {
    key in groups && groups[key].fileFormat.Some? && img == ImageOf(key, groups[key])
  }

  /** Some key of `order` yields `img`. */
  ghost predicate SomeKeyYields(groups: map<string, Group>, order: seq<string>, img: Utils.DiskImage)
  {
    exists i :: 0 <= i < |order| && Yields(groups, order[i], img)
  }

  /** Some element of `pre + [x]` satisfies `p` exactly when one of `pre` does or `x` does. */
  lemma ExistsSnoc<T>(pre: seq<T>, x: T, p: T -> bool)
    ensures (exists i :: 0 <= i < |pre + [x]| && p((pre + [x])[i])) <==>
            (exists i :: 0 <= i < |pre| && p(pre[i])) || p(x)
  {
    var s := pre + [x];
    if exists i :: 0 <= i < |pre| && p(pre[i]) {
      var i :| 0 <= i < |pre| && p(pre[i]);
      assert s[i] == pre[i];
    }
    assert s[|pre|] == x;
  }

  lemma SomeKeyYieldsSnoc(groups: map<string, Group>, order: seq<string>, img: Utils.DiskImage)
    requires order != []
    ensures SomeKeyYields(groups, order, img) <==>
            SomeKeyYields(groups, order[..|order| - 1], img) || Yields(groups, order[|order| - 1], img)
  {
    assert order == order[..|order| - 1] + [order[|order| - 1]];
    ExistsSnoc(order[..|order| - 1], order[|order| - 1], k => Yields(groups, k, img));
  }

  /** An image is listed exactly when some key in order has a group that makes it. */
  lemma {:induction false} ImagesOfMembers(groups: map<string, Group>, order: seq<string>, img: Utils.DiskImage)
    requires forall k :: k in order ==> k in groups
    ensures img in ImagesOf(groups, order) <==> SomeKeyYields(groups, order, img)
  {
    if order != [] {
      ImagesOfMembers(groups, order[..|order| - 1], img);
      SomeKeyYieldsSnoc(groups, order, img);
    }
  }

  /**
   * What `os.listdir` guarantees of the listing: names are non-empty and
   * hold no `/`.
   */
  ghost predicate ListingWF(sources: seq<Source>)
  {
    forall s :: s in sources ==>
      forall sd :: sd in s.subdirs ==>
        && sd.name != [] && '/' !in sd.name
        && forall f :: f in sd.files ==> f.name != [] && '/' !in f.name
  }

  /** A visited file lies in a directory `dr/sdr` that does not end in `/`, and its name holds no `/`. */
  ghost predicate EntryWF(e: Entry)
  {
    e.pth != [] && e.pth[|e.pth| - 1] != '/' && '/' !in e.file.name
  }

  lemma SubDirEntriesWF(dr: string, subdirs: seq<SubDir>)
    requires forall sd :: sd in subdirs ==>
      && sd.name != [] && '/' !in sd.name
      && forall f :: f in sd.files ==> f.name != [] && '/' !in f.name
    ensures forall e :: e in SubDirEntries(dr, subdirs) ==> EntryWF(e)
  {
    if subdirs != [] {
      var sd := subdirs[|subdirs| - 1];
      SubDirEntriesWF(dr, subdirs[..|subdirs| - 1]);
      var pth := dr + "/" + sd.name;
      assert pth[|pth| - 1] == sd.name[|sd.name| - 1];
      forall e | e in FileEntries(pth, sd.files)
        ensures EntryWF(e)
      {
        var k :| 0 <= k < |sd.files| && FileEntries(pth, sd.files)[k] == e;
        assert sd.files[k] in sd.files;
      }
    }
  }

  /** Every file of a well-formed listing is visited in a well-formed directory. */
  lemma EntriesWF(sources: seq<Source>)
    requires ListingWF(sources)
    ensures forall e :: e in Entries(sources) ==> EntryWF(e)
  {
    if sources != [] {
      var src := sources[|sources| - 1];
      EntriesWF(sources[..|sources| - 1]);
      SubDirEntriesWF(src.path, src.subdirs);
    }
  }

  /**
   * The key `pth/base` of a well-formed entry splits back into its base,
   * as `os.path.basename`, and its directory, as `os.path.dirname`.
   */
  lemma KeySplits(e: Entry)
    requires EntryWF(e)
    ensures Paths.BaseName(FileOf(e).key) == Classify(e.file.name).base
    ensures Paths.DirName(FileOf(e).key) == e.pth
  {
    var b := Classify(e.file.name).base;
    ClassifyBasePrefix(e.file.name);
    assert '/' !in b;
    Paths.BaseNameJoin(e.pth, b);
    Paths.DirNameJoin(e.pth, b);
  }

  /** Every image of the catalogue is made by the group of some key. */
  lemma CatalogueKey(sources: seq<Source>, img: Utils.DiskImage)
    requires img in Catalogue(sources)
    ensures exists key :: Yields(Fold(Filing(Entries(sources))).groups, key, img)
  {
    var st := Fold(Filing(Entries(sources)));
    var images := ImagesOf(st.groups, st.order);
    assert img in multiset(Catalogue(sources));
    assert img in images;
    ImagesOfMembers(st.groups, st.order, img);
  }

  /** The key of an image-making group, split back into its name and directory. */
  lemma YieldsFromFile(es: seq<Entry>, key: string, img: Utils.DiskImage)
    requires forall e :: e in es ==> EntryWF(e)
    requires Yields(Fold(Filing(es)).groups, key, img)
    ensures exists j :: LastImageAt(Filing(es), key, j) && Some(img.fileFormat) == FormatOf(Filing(es)[j].kind)
    ensures forall j :: 0 <= j < |es| && Filing(es)[j].key == key ==>
              es[j].pth == img.directory && Classify(es[j].file.name).base == img.name
  {
    var fs := Filing(es);
    FoldGroupOf(fs, key);
    GroupLastFormat(fs, key);
    forall j | 0 <= j < |es| && fs[j].key == key
      ensures es[j].pth == img.directory && Classify(es[j].file.name).base == img.name
    {
      assert es[j] in es;
      KeySplits(es[j]);
    }
  }

  /** The path of an image named after an image file is the path of that file. */
  lemma ImageFilePath(e: Entry, img: Utils.DiskImage)
    requires IsImage(Classify(e.file.name).kind)
    requires FormatOf(Classify(e.file.name).kind) == Some(img.fileFormat)
    requires e.pth == img.directory && Classify(e.file.name).base == img.name
    ensures e.pth + "/" + e.file.name == Utils.ImagePath(img)
  {
    if Classify(e.file.name).kind == GzImage {
      ClassifyGzShape(e.file.name);
      assert e.pth + "/" + e.file.name == img.directory + "/" + img.name + "." + "img.gz";
    } else {
      ClassifyRawShape(e.file.name);
      assert e.pth + "/" + e.file.name == img.directory + "/" + img.name + "." + "img";
    }
  }

  /**
   * Every image of the catalogue was listed: some image file `name.img` or
   * `name.img.gz` in directory `dr/sdr` gives its name and directory, and its
   * path, `str(image)`, is that file's path.
   */
  lemma CatalogueSound(sources: seq<Source>, img: Utils.DiskImage)
    requires ListingWF(sources)
    requires img in Catalogue(sources)
    ensures exists e :: e in Entries(sources) && IsImage(Classify(e.file.name).kind) &&
              e.pth == img.directory && Classify(e.file.name).base == img.name &&
              e.pth + "/" + e.file.name == Utils.ImagePath(img)
  {
    var es := Entries(sources);
    EntriesWF(sources);
    CatalogueKey(sources, img);
    var key :| Yields(Fold(Filing(es)).groups, key, img);
    YieldsFromFile(es, key, img);
    var j :| LastImageAt(Filing(es), key, j) && Some(img.fileFormat) == FormatOf(Filing(es)[j].kind);
    ImageFilePath(es[j], img);
    assert es[j] in es;
  }

  /**
   * Every image file of a well-formed listing yields an image of the
   * catalogue, named after the file's base, in the file's directory.
   */
  lemma CatalogueComplete(sources: seq<Source>, e: Entry)
    requires ListingWF(sources)
    requires e in Entries(sources) && IsImage(Classify(e.file.name).kind)
    ensures exists img :: img in Catalogue(sources) &&
              img.name == Classify(e.file.name).base && img.directory == e.pth
  {
    var es := Entries(sources);
    var fs := Filing(es);
    var st := Fold(fs);
    EntriesWF(sources);
    var j :| 0 <= j < |es| && es[j] == e;
    var key := fs[j].key;
    FoldKeys(fs, key);
    assert key in st.order;
    var i :| 0 <= i < |st.order| && st.order[i] == key;
    FoldGroupOf(fs, key);
    GroupHasFormat(fs, key);
    var img := ImageOf(key, st.groups[key]);
    assert Yields(st.groups, st.order[i], img);
    ImagesOfMembers(st.groups, st.order, img);
    assert img in multiset(ImagesOf(st.groups, st.order));
    assert img in Catalogue(sources);
    KeySplits(e);
  }

  /** The key of an image's group is `directory/name` of the image. */
  lemma YieldsKey(es: seq<Entry>, key: string, img: Utils.DiskImage)
    requires forall e :: e in es ==> EntryWF(e)
    requires Yields(Fold(Filing(es)).groups, key, img)
    ensures key == img.directory + "/" + img.name
  {
    YieldsFromFile(es, key, img);
    var j :| LastImageAt(Filing(es), key, j) && Some(img.fileFormat) == FormatOf(Filing(es)[j].kind);
    assert Filing(es)[j] == FileOf(es[j]);
  }

  /** No two images of the catalogue share both name and directory. */
  lemma CatalogueNamesDistinct(sources: seq<Source>, a: Utils.DiskImage, b: Utils.DiskImage)
    requires ListingWF(sources)
    requires a in Catalogue(sources) && b in Catalogue(sources)
    requires a.name == b.name && a.directory == b.directory
    ensures a == b
  {
    var es := Entries(sources);
    EntriesWF(sources);
    CatalogueKey(sources, a);
    CatalogueKey(sources, b);
    var ka :| Yields(Fold(Filing(es)).groups, ka, a);
    var kb :| Yields(Fold(Filing(es)).groups, kb, b);
    YieldsKey(es, ka, a);
    YieldsKey(es, kb, b);
  }

  /** The catalogue is sorted by name, then directory. */
  lemma CatalogueSorted(sources: seq<Source>)
    ensures Sorting.Sorted(Catalogue(sources), Utils.ImageLt)
  {
    var st := Fold(Filing(Entries(sources)));
    Utils.ImageLtOrder();
    Sorting.SortSorted(ImagesOf(st.groups, st.order), Utils.ImageLt);
  }

  /**
   * Any sorted arrangement of the catalogue's images is the catalogue
   * itself, so the algorithm behind `images.sort()` does not matter.
   */
  lemma CatalogueUnique(sources: seq<Source>, t: seq<Utils.DiskImage>)
    requires ListingWF(sources)
    requires Sorting.Sorted(t, Utils.ImageLt)
    requires multiset(t) == multiset(Catalogue(sources))
    ensures t == Catalogue(sources)
  {
    var c := Catalogue(sources);
    Utils.ImageLtOrder();
    CatalogueSorted(sources);
    forall a, b | a in c && b in c && a != b
      ensures Utils.ImageLt(a, b) || Utils.ImageLt(b, a)
    {
      if a.name == b.name && a.directory == b.directory {
        CatalogueNamesDistinct(sources, a, b);
      }
    }
    Sorting.SortedUnique(c, t, Utils.ImageLt);
  }

  /** The group behind a catalogue image, found by the image's `directory/name`. */
  lemma CatalogueGroup(sources: seq<Source>, img: Utils.DiskImage)
    requires ListingWF(sources)
    requires img in Catalogue(sources)
    ensures var fs := Filing(Entries(sources));
      var g := GroupOf(fs, img.directory + "/" + img.name);
      g.fileFormat.Some? && img == ImageOf(img.directory + "/" + img.name, g)
  {
    var es := Entries(sources);
    EntriesWF(sources);
    CatalogueKey(sources, img);
    var key :| Yields(Fold(Filing(es)).groups, key, img);
    YieldsKey(es, key, img);
    FoldGroupOf(Filing(es), key);
  }

  /**
   * An image's variables are read from the lines of the `.vars` files filed
   * under its `directory/name`, in listing order.
   */
  lemma CatalogueVariables(sources: seq<Source>, img: Utils.DiskImage)
    requires ListingWF(sources)
    requires img in Catalogue(sources)
    ensures img.variables == ParseVars(map[], VarsLines(Filing(Entries(sources)), img.directory + "/" + img.name))
  {
    CatalogueGroup(sources, img);
    GroupVars(Filing(Entries(sources)), img.directory + "/" + img.name);
  }

  /** Each post-install script path of an image is `directory/name.post.L` for a label `L` of its group. */
  lemma PostLabelOf(key: string, g: Group, p: string)
    requires g.fileFormat.Some? && p in ImageOf(key, g).post
    ensures var img := ImageOf(key, g);
      exists l :: l in g.post && p == img.directory + "/" + img.name + ".post." + l
  {
    var img := ImageOf(key, g);
    var labels := Sorting.Sort(g.post, Text.Lt);
    var k :| 0 <= k < |img.post| && img.post[k] == p;
    assert labels[k] in multiset(labels);
  }

  /** A well-formed `.post.` entry whose key splits into an image's directory and name is that image's script `directory/name.post.L`. */
  lemma PostEntryPath(e: Entry, img: Utils.DiskImage)
    requires EntryWF(e) && FileOf(e).kind.PostScript?
    requires Paths.DirName(FileOf(e).key) == img.directory && Paths.BaseName(FileOf(e).key) == img.name
    ensures e.pth == img.directory && Classify(e.file.name).base == img.name
    ensures e.pth + "/" + e.file.name == img.directory + "/" + img.name + ".post." + FileOf(e).kind.tag
  {
    KeySplits(e);
    ClassifyPostShape(e.file.name);
  }

  /**
   * Every post-install script path of an image is the path of a listed
   * `name.post.L` file in the image's directory.
   */
  lemma CataloguePostSound(sources: seq<Source>, img: Utils.DiskImage, p: string)
    requires ListingWF(sources)
    requires img in Catalogue(sources) && p in img.post
    ensures exists e :: e in Entries(sources) && Classify(e.file.name).kind.PostScript? &&
              e.pth == img.directory && Classify(e.file.name).base == img.name &&
              e.pth + "/" + e.file.name == p
  {
    var es := Entries(sources);
    var fs := Filing(es);
    var key := img.directory + "/" + img.name;
    EntriesWF(sources);
    CatalogueGroup(sources, img);
    PostLabelOf(key, GroupOf(fs, key), p);
    var l :| l in GroupOf(fs, key).post && p == img.directory + "/" + img.name + ".post." + l;
    GroupPost(fs, key, l);
    var j :| 0 <= j < |fs| && fs[j].key == key && fs[j].kind == PostScript(l);
    assert fs[j] == FileOf(es[j]);
    assert es[j] in es;
    PostEntryPath(es[j], img);
  }

  /**
   * Every listed `name.post.L` file in an image's directory is one of the
   * image's post-install scripts.
   */
  lemma CataloguePostComplete(sources: seq<Source>, img: Utils.DiskImage, e: Entry)
    requires ListingWF(sources)
    requires img in Catalogue(sources) && e in Entries(sources)
    requires Classify(e.file.name).kind.PostScript?
    requires e.pth == img.directory && Classify(e.file.name).base == img.name
    ensures e.pth + "/" + e.file.name in img.post
  {
    var es := Entries(sources);
    var fs := Filing(es);
    var key := img.directory + "/" + img.name;
    var l := Classify(e.file.name).kind.tag;
    EntriesWF(sources);
    CatalogueGroup(sources, img);
    var j :| 0 <= j < |es| && es[j] == e;
    assert fs[j] == FileOf(e);
    GroupPost(fs, key, l);
    var g := GroupOf(fs, key);
    Utils.NewDiskImagePost(key, g.fileFormat.value, g.post, g.variables);
    PostEntryPath(e, img);
  }

  /** The loop over the lines of a `.vars` file. */
  method ReadVars(m: map<string, string>, lines: seq<string>) returns (r: map<string, string>)
    ensures r == ParseVars(m, lines)
  {
    r := m;
    for n := 0 to |lines|
      invariant r == ParseVars(m, lines[..n])
    {
      assert lines[..n + 1][..n] == lines[..n];
      var parts := Text.SplitAtMost(Text.RStrip(lines[n]), ':', 1);
      if |parts| > 1 {
        r := r[parts[0] := parts[1]];
      }
    }
    assert lines[..|lines|] == lines;
  }

  /** The key and kind a file is filed under, read off the pieces of its reversed name. */
  lemma FileOfPieces(pth: string, fl: File, spl: seq<string>)
    requires Text.SplitAtMost(Text.Reverse(fl.name), '.', 2) == spl
    ensures FileOf(Entry(pth, fl)) == Filed(pth + "/" + Text.Reverse(spl[|spl| - 1]), KindOf(spl), fl.lines)
  {
    ClassifyPieces(fl.name, spl);
  }

  /** `Step` with the new group of the key given. */
  lemma StepIs(st: State, e: Filed, g: Group)
    requires g == Apply(if e.key in st.groups then st.groups[e.key] else EmptyGroup, e.kind, e.lines)
    ensures Step(st, e) ==
            State(st.groups[e.key := g], if e.key in st.groups then st.order else st.order + [e.key])
  {
  }

  /** What the file whose reversed name splits into `spl` adds to its group `g`. */
  method AddToGroup(g: Group, spl: seq<string>, lines: seq<string>) returns (g': Group)
    ensures g' == Apply(g, KindOf(spl), lines)
  {
    g' := g;
    if |spl| == 3 {
      if spl[1] == "tsop" {
        g' := g.(post := g.post + [Text.Reverse(spl[0])]);
      } else if spl[1] == "gmi" && spl[0] == "zg" {
        g' := g.(fileFormat := Some("img.gz"));
      }
    } else if |spl| == 2 {
      if spl[0] == "gmi" {
        g' := g.(fileFormat := Some("img"));
      } else if spl[0] == "srav" {
        var vars := ReadVars(g.variables, lines);
        g' := g.(variables := vars);
      }
    }
  }

  /** The body of the innermost loop of `disk_image_list`, for file `fl` of directory `pth`. */
  method FileInto(groups: map<string, Group>, order: seq<string>, pth: string, fl: File)
    returns (groups': map<string, Group>, order': seq<string>)
    ensures State(groups', order') == Step(State(groups, order), FileOf(Entry(pth, fl)))
  {
    var spl := Text.SplitAtMost(Text.Reverse(fl.name), '.', 2);
    var key := pth + "/" + Text.Reverse(spl[|spl| - 1]);
    // A new key gets an empty group, added at the end of the key order.
    var g := EmptyGroup;
    order' := order;
    if key in groups {
      g := groups[key];
    } else {
      order' := order + [key];
    }
    g := AddToGroup(g, spl, fl.lines);
    groups' := groups[key := g];
    FileOfPieces(pth, fl, spl);
    StepIs(State(groups, order), Filed(key, KindOf(spl), fl.lines), g);
  }

  /** Filing one more entry is one more `Step`. */
  lemma FoldSnoc(done: seq<Entry>, e: Entry)
    ensures Fold(Filing(done + [e])) == Step(Fold(Filing(done)), FileOf(e))
  {
    var fs := Filing(done + [e]);
    assert fs[..|fs| - 1] == Filing(done);
  }

  /** The files of one subdirectory follow one another in the scan. */
  lemma FileEntriesSnoc(done: seq<Entry>, pth: string, files: seq<File>, k: nat)
    requires k < |files|
    ensures done + FileEntries(pth, files[..k + 1]) == done + FileEntries(pth, files[..k]) + [Entry(pth, files[k])]
  {
    assert FileEntries(pth, files[..k + 1]) == FileEntries(pth, files[..k]) + [Entry(pth, files[k])];
  }

  /** The loop over the files of directory `pth`. */
  method ScanFiles(groups: map<string, Group>, order: seq<string>, pth: string, files: seq<File>,
                   ghost done: seq<Entry>)
    returns (groups': map<string, Group>, order': seq<string>)
    requires State(groups, order) == Fold(Filing(done))
    ensures State(groups', order') == Fold(Filing(done + FileEntries(pth, files)))
  {
    groups', order' := groups, order;
    ghost var seen := done;
    for k := 0 to |files|
      invariant seen == done + FileEntries(pth, files[..k])
      invariant State(groups', order') == Fold(Filing(seen))
    {
      FoldSnoc(seen, Entry(pth, files[k]));
      groups', order' := FileInto(groups', order', pth, files[k]);
      FileEntriesSnoc(done, pth, files, k);
      seen := seen + [Entry(pth, files[k])];
    }
    assert files[..|files|] == files;
  }

  /** The subdirectories of one source follow one another in the scan. */
  lemma SubDirEntriesSnoc(done: seq<Entry>, dr: string, subdirs: seq<SubDir>, j: nat)
    requires j < |subdirs|
    ensures done + SubDirEntries(dr, subdirs[..j + 1])
         == done + SubDirEntries(dr, subdirs[..j]) + FileEntries(dr + "/" + subdirs[j].name, subdirs[j].files)
  {
    assert subdirs[..j + 1][..j] == subdirs[..j];
  }

  /** The loop over the subdirectories of source `dr`. */
  method ScanSource(groups: map<string, Group>, order: seq<string>, dr: string, subdirs: seq<SubDir>,
                    ghost done: seq<Entry>)
    returns (groups': map<string, Group>, order': seq<string>)
    requires State(groups, order) == Fold(Filing(done))
    ensures State(groups', order') == Fold(Filing(done + SubDirEntries(dr, subdirs)))
  {
    groups', order' := groups, order;
    ghost var seen := done;
    for j := 0 to |subdirs|
      invariant seen == done + SubDirEntries(dr, subdirs[..j])
      invariant State(groups', order') == Fold(Filing(seen))
    {
      var pth := dr + "/" + subdirs[j].name;
      groups', order' := ScanFiles(groups', order', pth, subdirs[j].files, seen);
      SubDirEntriesSnoc(done, dr, subdirs, j);
      seen := seen + FileEntries(pth, subdirs[j].files);
    }
    assert subdirs[..|subdirs|] == subdirs;
  }

  /** The second loop: append, in key order, an image for every group that saw an image file. */
  method AppendImages(images: Utils.SelectList<Utils.DiskImage>, groups: map<string, Group>, order: seq<string>)
    requires forall k :: k in order ==> k in groups
    requires images.items == [] && !images.updated
    modifies images
    ensures images.items == ImagesOf(groups, order)
    ensures images.pointer == old(images.pointer) && images.selected == old(images.selected)
    ensures images.updated == (images.items != [])
  {
    for n := 0 to |order|
      invariant images.items == ImagesOf(groups, order[..n])
      invariant images.pointer == old(images.pointer) && images.selected == old(images.selected)
      invariant images.updated == (images.items != [])
    {
      assert order[..n + 1][..n] == order[..n];
      var key := order[n];
      if groups[key].fileFormat.Some? {
        images.Append(ImageOf(key, groups[key]));
      }
    }
    assert order[..|order|] == order;
  }

  /** The sources so far are followed by one more in the scan. */
  lemma EntriesSnoc(sources: seq<Source>, i: nat)
    requires i < |sources|
    ensures Entries(sources[..i + 1]) == Entries(sources[..i]) + SubDirEntries(sources[i].path, sources[i].subdirs)
  {
    assert sources[..i + 1][..i] == sources[..i];
  }

  /** The first loop of `disk_image_list`: file every listed file into `file_groups`. */
  method ScanAll(sources: seq<Source>) returns (groups: map<string, Group>, order: seq<string>)
    ensures State(groups, order) == Fold(Filing(Entries(sources)))
  {
    groups, order := map[], [];
    for i := 0 to |sources|
      invariant State(groups, order) == Fold(Filing(Entries(sources[..i])))
    {
      groups, order := ScanSource(groups, order, sources[i].path, sources[i].subdirs, Entries(sources[..i]));
      EntriesSnoc(sources, i);
    }
    assert sources[..|sources|] == sources;
  }

  /**
   * `disk_image_list(*sources)`: scan every file of every subdirectory of
   * every source into `file_groups`, append an image for every group that
   * saw an image file, and sort. The result is the catalogue, with the
   * cursor at the start, nothing selected, and the change flag set when an
   * image was appended.
   */
  method DiskImageList(sources: seq<Source>) returns (images: Utils.SelectList<Utils.DiskImage>)
    ensures fresh(images)
    ensures images.items == Catalogue(sources)
    ensures images.pointer == 0 && images.selected == None
    ensures images.updated == (images.items != [])
  {
    var groups, order := ScanAll(sources);
    ghost var st := Fold(Filing(Entries(sources)));
    assert StateWF(st);
    images := new Utils.SelectList<Utils.DiskImage>();
    AppendImages(images, groups, order);
    images.Sort(Utils.ImageLt);
  }
}
