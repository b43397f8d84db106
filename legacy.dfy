/**
 * The older cursor list and catalogue of lib/selectlist.py.
 *
 * Images are found with the regular expression `(.+)\.img\.gz`, searched
 * anywhere in a file name, and carry only a name and a directory. The cursor
 * list indexes the Python list directly, so an empty list raises
 * `IndexError` (modelled as `None`) and a negative cursor counts from the end.
 */
module LegacyList {

  import opened Wrappers
  import Text
  import Paths
  import Sorting
  import Catalogue
  import Utils

  /** Python's `xs[p]` on a list of length `len`: the position read, or `None` for `IndexError`. */
  function PyIndex(len: nat, p: int): (r: Option<nat>)
    ensures r.Some? <==> 0 <= p + len && p < len
    ensures r.Some? ==> r.value < len && (r.value == p || r.value == p + len)
  {
    if 0 <= p < len then Some(p)
    else if 0 <= p + len && p < 0 then Some(p + len)
    else None
  }

  datatype Image = Image(name: string, directory: string)

  /** `DiskImage(filepath)`. */
  function NewImage(filepath: string): Image
  {
    Image(Paths.BaseName(filepath), Paths.DirName(filepath))
  }

  /** `DiskImage.__str__`: every image is taken to be a compressed one. */
  function ImagePath(img: Image): string
  {
    img.directory + "/" + img.name + ".img.gz"
  }

  /** `DiskImage.__lt__`: by name, then by directory. */
  predicate ImageLt(a: Image, b: Image)
  {
    Text.Lt(a.name, b.name) || (a.name == b.name && Text.Lt(a.directory, b.directory))
  }

  /** `ImageLt` is a strict order that orders any two different images. */
  lemma ImageLtOrder()
    ensures Sorting.StrictOrder(ImageLt)
    ensures forall a: Image, b: Image :: a != b ==> ImageLt(a, b) || ImageLt(b, a)
  {
    forall a: Image
      ensures !ImageLt(a, a)
    {
      Text.LtIrreflexive(a.name);
      Text.LtIrreflexive(a.directory);
    }
    forall a: Image, b: Image, c: Image | ImageLt(a, b) && ImageLt(b, c)
      ensures ImageLt(a, c)
    {
      if Text.Lt(a.name, b.name) && Text.Lt(b.name, c.name) {
        Text.LtTransitive(a.name, b.name, c.name);
      } else if a.name == b.name == c.name {
        Text.LtTransitive(a.directory, b.directory, c.directory);
      }
    }
    forall a: Image, b: Image | a != b
      ensures ImageLt(a, b) || ImageLt(b, a)
    {
      if a.name != b.name {
        Text.LtTotal(a.name, b.name);
      } else {
        Text.LtTotal(a.directory, b.directory);
      }
    }
  }

  const Suffix := ".img.gz"

  /** `re.search(r"(.+)\.img\.gz", fl)` tried from start `s` onwards: group 1 of the match. */
  function SearchFrom(fl: string, s: nat): Option<string>
    requires s <= |fl|
    decreases |fl| - s
  {
    if s == |fl| then None
    else
      match Text.LastOccurrence(fl, Suffix, s, Text.LineEnd(fl, s))
      case Some(e) => Some(fl[s..e])
      case None => SearchFrom(fl, s + 1)
  }

  /** The image name a file name yields, if the search matches. */
  function ImageName(fl: string): Option<string>
  {
    SearchFrom(fl, 0)
  }

  /** With no suffix at or after `s + 1`, no search from `s` on matches. */
  lemma {:induction false} SearchFromNone(fl: string, s: nat)
    requires s <= |fl|
    requires forall j :: s < j ==> !Text.OccursAt(fl, Suffix, j)
    ensures SearchFrom(fl, s) == None
    decreases |fl| - s
  {
    if s < |fl| {
      SearchFromNone(fl, s + 1);
    }
  }

  /**
   * For a name on one line, the search matches exactly when `.img.gz`
   * occurs after at least one character, and the image name is everything
   * before the last such occurrence; whatever follows it is ignored.
   */
  lemma ImageNameSpec(fl: string)
    requires '\n' !in fl
    ensures ImageName(fl).Some? <==> exists j :: 1 <= j && Text.OccursAt(fl, Suffix, j)
    ensures ImageName(fl).Some? ==>
      var n := ImageName(fl).value;
      && 1 <= |n| && n == fl[..|n|] && Text.OccursAt(fl, Suffix, |n|)
      && forall j :: |n| < j ==> !Text.OccursAt(fl, Suffix, j)
  {
    if fl != [] {
      assert Text.LineEnd(fl, 0) == |fl|;
      var g := Text.LastOccurrence(fl, Suffix, 0, |fl|);
      if g.None? {
        SearchFromNone(fl, 1);
      }
    }
  }

  /** A name ending in `.img.gz` names the image before the suffix. */
  lemma ImageNameOfSuffixed(b: string)
    requires b != [] && '\n' !in b
    ensures ImageName(b + Suffix) == Some(b)
  {
    var fl := b + Suffix;
    assert '\n' !in Suffix;
    assert '\n' !in fl;
    ImageNameSpec(fl);
    assert Text.OccursAt(fl, Suffix, |b|);
    var n := ImageName(fl).value;
    assert |n| == |b|;
  }

  /** Where `.img.gz` occurs, a dot followed by `i` does. */
  lemma OccursAtHead(fl: string, j: nat)
    requires Text.OccursAt(fl, Suffix, j)
    ensures j + 7 <= |fl| && fl[j] == '.' && fl[j + 1] == 'i'
  {
    assert fl[j..j + 7][0] == fl[j] && fl[j..j + 7][1] == fl[j + 1];
  }

  /**
   * A name with text after `.img.gz`, such as `a.img.gz.bak`, still yields
   * the image before the suffix: the search is not anchored at the end, so
   * `str(image)` then names `a.img.gz`, not the listed file.
   */
  lemma TrailingTextIgnored(b: string, t: string)
    requires b != [] && '\n' !in b && '\n' !in t && '.' !in t
    ensures ImageName(b + Suffix + t) == Some(b)
  {
    var fl := b + Suffix + t;
    assert '\n' !in Suffix;
    assert '\n' !in fl;
    ImageNameSpec(fl);
    assert Text.OccursAt(fl, Suffix, |b|) by {
      assert fl[|b|..|b| + 7] == Suffix;
    }
    NoLaterSuffix(b, t);
    assert fl[..|b|] == b;
  }

  /** After the `.img.gz` that follows `b`, no other starts: `t` holds no dot. */
  lemma NoLaterSuffix(b: string, t: string)
    requires '.' !in t
    ensures forall j :: |b| < j ==> !Text.OccursAt(b + Suffix + t, Suffix, j)
  {
    var fl := b + Suffix + t;
    forall j | |b| < j && Text.OccursAt(fl, Suffix, j)
      ensures false
    {
      OccursAtHead(fl, j);
    }
  }

  /** The image one listed file adds: one when its name matches, none otherwise. */
  function Listed(e: Catalogue.Entry): seq<Image>
  {
    match ImageName(e.file.name)
    case Some(n) => [NewImage(e.pth + "/" + n)]
    case None => []
  }

  /** The images the scan extends the list with, in scan order. */
  function ListedImages(es: seq<Catalogue.Entry>): seq<Image>
  {
    if es == [] then [] else ListedImages(es[..|es| - 1]) + Listed(es[|es| - 1])
  }

  /** Scanning one more file extends the list with that file's image. */
  lemma ListedImagesSnoc(es: seq<Catalogue.Entry>, e: Catalogue.Entry)
    ensures ListedImages(es + [e]) == ListedImages(es) + Listed(e)
  {
    assert (es + [e])[..|es|] == es;
  }

  /** `disk_image_list(*sources)` as a value. */
  function LegacyCatalogue(sources: seq<Catalogue.Source>): seq<Image>
  {
    Sorting.Sort(ListedImages(Catalogue.Entries(sources)), ImageLt)
  }

  /** File `e` yields image `img`. */
  ghost predicate Yields(e: Catalogue.Entry, img: Image)
  {
    ImageName(e.file.name) == Some(img.name) && e.pth == img.directory
  }

  /** The image a well-formed file yields is named after the match, in the file's directory. */
  lemma EntryImage(e: Catalogue.Entry, img: Image)
    requires Catalogue.EntryWF(e) && ImageName(e.file.name).Some?
    ensures img == NewImage(e.pth + "/" + ImageName(e.file.name).value) <==> Yields(e, img)
  {
    var n := ImageName(e.file.name).value;
    NameHasNoSlash(e.file.name);
    Paths.BaseNameJoin(e.pth, n);
    Paths.DirNameJoin(e.pth, n);
  }

  /** An image is listed exactly when some visited file yields its name in its directory. */
  lemma {:induction false} ListedImagesMembers(es: seq<Catalogue.Entry>, img: Image)
    requires forall e :: e in es ==> Catalogue.EntryWF(e)
    ensures img in ListedImages(es) <==> exists e :: e in es && Yields(e, img)
  {
    if es != [] {
      var pre := es[..|es| - 1];
      var e := es[|es| - 1];
      assert es == pre + [e];
      assert forall x :: x in es <==> x in pre || x == e;
      ListedImagesMembers(pre, img);
      if ImageName(e.file.name).Some? {
        EntryImage(e, img);
      }
    }
  }

  /** The image name is a prefix of the file name, so it holds no `/` when the file name holds none. */
  lemma NameHasNoSlash(fl: string)
    requires '/' !in fl && ImageName(fl).Some?
    ensures '/' !in ImageName(fl).value
  {
    NameIsPrefix(fl, 0);
  }

  /** Any name a search from `s` yields is a piece of `fl`. */
  lemma {:induction false} NameIsPrefix(fl: string, s: nat)
    requires s <= |fl| && SearchFrom(fl, s).Some?
    ensures exists a, b :: s <= a <= b <= |fl| && SearchFrom(fl, s).value == fl[a..b]
    decreases |fl| - s
  {
    var g := Text.LastOccurrence(fl, Suffix, s, Text.LineEnd(fl, s));
    if g.Some? {
      assert SearchFrom(fl, s).value == fl[s..g.value];
    } else {
      NameIsPrefix(fl, s + 1);
    }
  }

  /**
   * For a well-formed listing, the legacy catalogue holds an image of name
   * `n` in directory `d` exactly when some file of `d` yields `n`, and it is
   * sorted by name, then directory.
   */
  lemma LegacyCatalogueSpec(sources: seq<Catalogue.Source>, img: Image)
    requires Catalogue.ListingWF(sources)
    ensures Sorting.Sorted(LegacyCatalogue(sources), ImageLt)
    ensures img in LegacyCatalogue(sources) <==>
            exists e :: e in Catalogue.Entries(sources) && ImageName(e.file.name) == Some(img.name) &&
                        e.pth == img.directory
  {
    var listed := ListedImages(Catalogue.Entries(sources));
    ImageLtOrder();
    Sorting.SortSorted(listed, ImageLt);
    Catalogue.EntriesWF(sources);
    ListedImagesMembers(Catalogue.Entries(sources), img);
    assert img in LegacyCatalogue(sources) <==> img in multiset(listed);
  }

  /** Any sorted arrangement of the listed images is the legacy catalogue. */
  lemma LegacyCatalogueUnique(sources: seq<Catalogue.Source>, t: seq<Image>)
    requires Sorting.Sorted(t, ImageLt)
    requires multiset(t) == multiset(ListedImages(Catalogue.Entries(sources)))
    ensures t == LegacyCatalogue(sources)
  {
    var c := LegacyCatalogue(sources);
    ImageLtOrder();
    Sorting.SortSorted(ListedImages(Catalogue.Entries(sources)), ImageLt);
    Sorting.SortedUnique(c, t, ImageLt);
  }

  /** The cursor list of lib/selectlist.py, holding the catalogue. */
  class SelectList {
    var items: seq<Image>
    var pointer: int
    var selected: Option<int>

    constructor ()
      ensures items == [] && pointer == 0 && selected == None
    {
      items := [];
      pointer := 0;
      selected := None;
    }

    /** `current`: the name at the cursor, `None` where Python raises `IndexError`. */
    function Current(): (r: Option<string>)
      reads this
      ensures r.Some? <==> 0 <= pointer + |items| && pointer < |items|
      ensures 0 <= pointer < |items| ==> r == Some(items[pointer].name)
      ensures -|items| <= pointer < 0 ==> r == Some(items[pointer + |items|].name)
    {
      match PyIndex(|items|, pointer)
      case Some(k) => Some(items[k].name)
      case None => None
    }

    /**
     * `next`: advance, wrapping to 0, then read the name there. On an empty
     * list the cursor is reset to 0 before the read raises.
     */
    method Next() returns (r: Option<string>)
      modifies this`pointer
      ensures pointer == if old(pointer) + 1 >= |items| then 0 else old(pointer) + 1
      ensures r == Current()
      ensures 0 <= old(pointer) < |items| ==>
                pointer == (old(pointer) + 1) % |items| && r == Some(items[pointer].name)
      ensures |items| == 0 ==> r == None
    {
      pointer := pointer + 1;
      if pointer >= |items| {
        pointer := 0;
      }
      if 0 <= old(pointer) < |items| {
        assert pointer == Utils.NextPointer(old(pointer), |items|);
      }
      r := Current();
    }

    /**
     * `prev`: retreat, wrapping from 0 to the last item, then read the name
     * there. On an empty list the cursor becomes -1 before the read raises.
     */
    method Prev() returns (r: Option<string>)
      modifies this`pointer
      ensures pointer == if old(pointer) - 1 < 0 then |items| - 1 else old(pointer) - 1
      ensures r == Current()
      ensures 0 <= old(pointer) < |items| ==>
                pointer == (old(pointer) + |items| - 1) % |items| && r == Some(items[pointer].name)
      ensures |items| == 0 ==> r == None
    {
      pointer := pointer - 1;
      if pointer < 0 {
        pointer := |items| - 1;
      }
      if 0 <= old(pointer) < |items| {
        assert pointer == Utils.PrevPointer(old(pointer), |items|);
      }
      r := Current();
    }

    /** `select`: clear the selection if it is at the cursor, else move it there. */
    method Select()
      modifies this`selected
      ensures selected == Toggle(old(selected), pointer)
    {
      if selected == Some(pointer) {
        selected := None;
      } else {
        selected := Some(pointer);
      }
    }

    function CurrentIsSelected(): (r: bool)
      reads this
      ensures r <==> selected.Some? && selected.value == pointer
    {
      selected == Some(pointer)
    }

    /**
     * `selected_full_path`: `Some(None)` with nothing selected, else the
     * path of the selected image, or `None` where indexing raises.
     */
    function SelectedFullPath(): (r: Option<Option<string>>)
      reads this
      ensures selected.None? ==> r == Some(None)
      ensures selected.Some? && 0 <= selected.value < |items| ==>
                r == Some(Some(ImagePath(items[selected.value])))
      ensures selected.Some? && -|items| <= selected.value < 0 ==>
                r == Some(Some(ImagePath(items[selected.value + |items|])))
      ensures selected.Some? ==> (r.None? <==> PyIndex(|items|, selected.value).None?)
    {
      FullPath(items, selected)
    }
  }

  /** `select` on a cursor list whose cursor is at `pointer`. */
  function Toggle(selected: Option<int>, pointer: int): Option<int>
  {
    if selected == Some(pointer) then None else Some(pointer)
  }

  /** `selected_full_path` on the given items and selection. */
  function FullPath(items: seq<Image>, selected: Option<int>): Option<Option<string>>
  {
    match selected
    case None => Some(None)
    case Some(s) =>
      match PyIndex(|items|, s)
      case Some(k) => Some(Some(ImagePath(items[k])))
      case None => None
  }

  /**
   * After a `select` at a cursor on the list, the full path is that of the
   * image at the cursor, unless the cursor was already selected, in which
   * case nothing is; a second `select` there restores the selection when it
   * was empty or at the cursor, and clears it when it was elsewhere.
   */
  lemma SelectThenPath(items: seq<Image>, selected: Option<int>, pointer: int)
    requires 0 <= pointer < |items|
    ensures FullPath(items, Toggle(selected, pointer)) ==
            if selected == Some(pointer) then Some(None) else Some(Some(ImagePath(items[pointer])))
    ensures Toggle(Toggle(selected, pointer), pointer) == (if selected == Some(pointer) then selected else None)
  {
  }

  /**
   * Moving the cursor after a `select` keeps the selection, so the full
   * path still names the image selected before the move.
   */
  lemma SelectThenMove(items: seq<Image>, selected: Option<int>, pointer: int, moved: int)
    requires 0 <= pointer < |items| && selected != Some(pointer)
    ensures FullPath(items, Toggle(selected, pointer)) == Some(Some(ImagePath(items[pointer])))
    ensures moved != pointer ==> Toggle(selected, pointer) != Some(moved)
  {
  }

  /** The loop over the files of directory `pth`: extend with each matching image. */
  method ScanFiles(images: SelectList, pth: string, files: seq<Catalogue.File>, ghost done: seq<Catalogue.Entry>)
    requires images.items == ListedImages(done)
    modifies images`items
    ensures images.items == ListedImages(done + Catalogue.FileEntries(pth, files))
  {
    ghost var seen := done;
    for k := 0 to |files|
      invariant seen == done + Catalogue.FileEntries(pth, files[..k])
      invariant images.items == ListedImages(seen)
    {
      var e := Catalogue.Entry(pth, files[k]);
      var m := ImageName(files[k].name);
      if m.Some? {
        images.items := images.items + [NewImage(pth + "/" + m.value)];
      }
      assert images.items == ListedImages(seen) + Listed(e);
      ListedImagesSnoc(seen, e);
      Catalogue.FileEntriesSnoc(done, pth, files, k);
      seen := seen + [e];
    }
    assert files[..|files|] == files;
  }

  /** `disk_image_list(*sources)`: the sorted images, with the cursor at the start and nothing selected. */
  method DiskImageList(sources: seq<Catalogue.Source>) returns (images: SelectList)
    ensures fresh(images)
    ensures images.items == LegacyCatalogue(sources)
    ensures images.pointer == 0 && images.selected == None
  {
    images := new SelectList();
    for i := 0 to |sources|
      invariant images.items == ListedImages(Catalogue.Entries(sources[..i]))
      invariant images.pointer == 0 && images.selected == None
    {
      var dr := sources[i].path;
      var subdirs := sources[i].subdirs;
      ghost var seen := Catalogue.Entries(sources[..i]);
      for j := 0 to |subdirs|
        invariant seen == Catalogue.Entries(sources[..i]) + Catalogue.SubDirEntries(dr, subdirs[..j])
        invariant images.items == ListedImages(seen)
        invariant images.pointer == 0 && images.selected == None
      {
        var pth := dr + "/" + subdirs[j].name;
        ScanFiles(images, pth, subdirs[j].files, seen);
        Catalogue.SubDirEntriesSnoc(Catalogue.Entries(sources[..i]), dr, subdirs, j);
        seen := seen + Catalogue.FileEntries(pth, subdirs[j].files);
      }
      assert subdirs[..|subdirs|] == subdirs;
      assert sources[..i + 1][..i] == sources[..i];
    }
    assert sources[..|sources|] == sources;
    images.items := Sorting.Sort(images.items, ImageLt);
  }
}
