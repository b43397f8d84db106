/**
 * The selectable cursor list and the image descriptor of lib/utils.py.
 *
 * `SelectList` is a Python list extended with a cursor `pointer`, an
 * independent `selected` slot and an `updated` flag. Unlike the older
 * version in lib/selectlist.py, it tolerates an empty list, and its cursor
 * may be left beyond the end of the list by `remove`.
 */
module Utils {

  import opened Wrappers
  import Text
  import Paths
  import Sorting

  /** Where `next` moves a cursor at `p` on a non-empty list of length `len`. */
  function NextPointer(p: nat, len: nat): (q: nat)
    requires len > 0
    ensures q < len
    ensures p < len ==> q == (p + 1) % len
    ensures p >= len ==> q == 0
  {
    if p + 1 >= len then 0 else p + 1
  }

  /** Where `prev` moves a cursor at `p` on a non-empty list of length `len`. */
  function PrevPointer(p: nat, len: nat): (q: nat)
    requires len > 0
    ensures p < len ==> q == (p + len - 1) % len
    ensures p == 0 ==> q == len - 1
    ensures p >= len ==> q == p - 1
    ensures p > len ==> q >= len
  {
    if p == 0 then
      ModBelow(len - 1, len);
      len - 1
    else
      ModOnceIf(p + len - 1, len);
      p - 1
  }

  lemma ModBelow(a: int, n: int)
    requires 0 <= a < n
    ensures a % n == a
  {
  }

  lemma ModOnceIf(a: int, n: int)
    requires 0 < n <= a
    ensures a < 2 * n ==> a % n == a - n
  {
  }

  /** `prev` undoes `next` and `next` undoes `prev` while the cursor is on the list. */
  lemma NextPrevRoundTrip(p: nat, len: nat)
    requires p < len
    ensures PrevPointer(NextPointer(p, len), len) == p
    ensures NextPointer(PrevPointer(p, len), len) == p
  {
  }

  /** The cursor after `k` calls to `next`. */
  function NextTimes(p: nat, len: nat, k: nat): nat
    requires len > 0
  {
    if k == 0 then p else NextPointer(NextTimes(p, len, k - 1), len)
  }

  /** Up to a full cycle, `k` calls to `next` move the cursor `k` places, wrapping once. */
  lemma {:induction false} NextTimesWrap(p: nat, len: nat, k: nat)
    requires p < len && k <= len
    ensures NextTimes(p, len, k) == if p + k < len then p + k else p + k - len
  {
    if k > 0 {
      NextTimesWrap(p, len, k - 1);
    }
  }

  /**
   * `len` calls to `next` bring the cursor back to where it started, and no
   * fewer do.
   */
  lemma NextFullCycle(p: nat, len: nat)
    requires p < len
    ensures NextTimes(p, len, len) == p
    ensures forall k :: 0 < k < len ==> NextTimes(p, len, k) != p
  {
    NextTimesWrap(p, len, len);
    forall k | 0 < k < len
      ensures NextTimes(p, len, k) != p
    {
      NextTimesWrap(p, len, k);
    }
  }

  /** `select`: clear the selection if it is at the cursor, else move it there. */
  function Toggle(selected: Option<nat>, pointer: nat): Option<nat>
  {
    if selected == Some(pointer) then None else Some(pointer)
  }

  /**
   * After a `select` the cursor is selected exactly when it was not before,
   * and a second `select` at the same place leaves nothing selected unless
   * the cursor was selected to begin with.
   */
  lemma ToggleSpec(selected: Option<nat>, pointer: nat)
    ensures (Toggle(selected, pointer) == Some(pointer)) == (selected != Some(pointer))
    ensures Toggle(selected, pointer).Some? ==> Toggle(selected, pointer).value == pointer
    ensures Toggle(Toggle(selected, pointer), pointer)
            == if selected == Some(pointer) then selected else None
  {
  }

  /**
   * Selecting, then moving the cursor on a list of two or more items, leaves
   * the cursor unselected and the selection where it was.
   */
  lemma SelectThenMove(selected: Option<nat>, pointer: nat, len: nat)
    requires pointer < len && len > 1 && selected != Some(pointer)
    ensures Toggle(selected, pointer) == Some(pointer)
    ensures Toggle(selected, pointer) != Some(NextPointer(pointer, len))
    ensures Toggle(selected, pointer) != Some(PrevPointer(pointer, len))
  {
  }

  /** Python's `list.remove(x)`: drop the first occurrence of `x`. */
  function RemoveFirst<T(==)>(s: seq<T>, x: T): (r: seq<T>)
    requires x in s
    ensures |r| == |s| - 1
    ensures multiset(r) == multiset(s) - multiset{x}
  {
    if s[0] == x then
      assert s == [s[0]] + s[1..];
      s[1..]
    else
      assert s == [s[0]] + s[1..];
      [s[0]] + RemoveFirst(s[1..], x)
  }

  class SelectList<T(==)> {
    var items: seq<T>
    var pointer: nat
    var selected: Option<nat>
    var updated: bool

    constructor ()
      ensures items == [] && pointer == 0 && selected == None && !updated
    {
      items := [];
      pointer := 0;
      selected := None;
      updated := false;
    }

    /** The item at the cursor, or `None` when the cursor is past the end. */
    function Current(): (r: Option<T>)
      reads this
      ensures r.Some? <==> pointer < |items|
      ensures r.Some? ==> r.value == items[pointer]
    {
      if pointer >= |items| then None else Some(items[pointer])
    }

    /** Whether the cursor is on the selected slot. */
    function CurrentIsSelected(): (r: bool)
      reads this
      ensures r <==> selected.Some? && selected.value == pointer
    {
      selected == Some(pointer)
    }

    /** Advance the cursor, wrapping to 0; on an empty list nothing moves. */
    method Next() returns (r: Option<T>)
      modifies this`pointer
      ensures |items| == 0 ==> pointer == old(pointer) && r == None
      ensures |items| > 0 ==> pointer == NextPointer(old(pointer), |items|)
      ensures |items| > 0 ==> r == Some(items[pointer])
    {
      if |items| > 0 {
        pointer := pointer + 1;
        if pointer >= |items| {
          pointer := 0;
        }
        r := Current();
      } else {
        r := None;
      }
    }

    /**
     * Retreat the cursor, wrapping from 0 to the last item; on an empty list
     * nothing moves. A cursor left beyond the end by `remove` only steps back
     * by one, so the result may still be `None`.
     */
    method Prev() returns (r: Option<T>)
      modifies this`pointer
      ensures |items| == 0 ==> pointer == old(pointer) && r == None
      ensures |items| > 0 ==> pointer == PrevPointer(old(pointer), |items|)
      ensures |items| > 0 ==> r == Current()
    {
      if |items| > 0 {
        var p: int := pointer;
        p := p - 1;
        if p < 0 {
          p := |items| - 1;
        }
        pointer := p;
        r := Current();
      } else {
        r := None;
      }
    }

    method Select()
      modifies this`selected
      ensures selected == Toggle(old(selected), pointer)
    {
      if selected == Some(pointer) {
        selected := None;
      } else {
        selected := Some(pointer);
      }
    }

    /** Append an item and flag the list as changed; the cursor and selection stay. */
    method Append(item: T)
      modifies this`items, this`updated
      ensures items == old(items) + [item] && updated
    {
      updated := true;
      items := items + [item];
    }

    /** `list.sort()`: reorder the items in place, leaving the cursor and flags. */
    method Sort(lt: (T, T) -> bool)
      modifies this`items
      ensures items == Sorting.Sort(old(items), lt)
    {
      items := Sorting.Sort(items, lt);
    }

    /**
     * Remove the first occurrence of `item`. The flag is set before the
     * removal, so it is set even when the item is absent and Python raises
     * `ValueError` (`found` is false here). The cursor and selection stay,
     * so the cursor may end up past the end of the list.
     */
    method Remove(item: T) returns (found: bool)
      modifies this`items, this`updated
      ensures updated
      ensures found == (item in old(items))
      ensures found ==> items == RemoveFirst(old(items), item)
      ensures !found ==> items == old(items)
    {
      updated := true;
      found := item in items;
      if found {
        items := RemoveFirst(items, item);
      }
    }
  }

  /** An image file with its post-install scripts and its `.vars` prompts. */
  datatype DiskImage = DiskImage(
    name: string,
    directory: string,
    fileFormat: string,
    post: seq<string>,
    variables: map<string, string>)

  /** `directory/name.post.<label>` for each label, in the given order. */
  function PostPaths(prefix: string, labels: seq<string>): (r: seq<string>)
    ensures |r| == |labels|
    ensures forall k :: 0 <= k < |r| ==> r[k] == prefix + labels[k]
  {
    if labels == [] then [] else [prefix + labels[0]] + PostPaths(prefix, labels[1..])
  }

  /** `DiskImage(filepath, file_format, post, variables)`. */
  function NewDiskImage(filepath: string, fileFormat: string, post: seq<string>,
                        variables: map<string, string>): DiskImage
  {
    var name := Paths.BaseName(filepath);
    var directory := Paths.DirName(filepath);
    DiskImage(name, directory, fileFormat,
              PostPaths(directory + "/" + name + ".post.", Sorting.Sort(post, Text.Lt)),
              variables)
  }

  /**
   * The post-install script paths of a new image are `directory/name.post.L`,
   * one per label `L` (as many times as `L` is listed), in ascending string
   * order.
   */
  lemma NewDiskImagePost(filepath: string, fileFormat: string, post: seq<string>,
                         variables: map<string, string>)
    ensures var img := NewDiskImage(filepath, fileFormat, post, variables);
      var prefix := img.directory + "/" + img.name + ".post.";
      && |img.post| == |post|
      && Sorting.Sorted(img.post, Text.Lt)
      && (forall l :: l in post <==> prefix + l in img.post)
      && (forall l :: multiset(img.post)[prefix + l] == multiset(post)[l])
  {
    var img := NewDiskImage(filepath, fileFormat, post, variables);
    var prefix := img.directory + "/" + img.name + ".post.";
    var labels := Sorting.Sort(post, Text.Lt);
    Text.LtStrictOrder();
    Sorting.SortSorted(post, Text.Lt);
    forall i, j | 0 <= i < j < |img.post|
      ensures !Text.Lt(img.post[j], img.post[i])
    {
      Text.LtCommonPrefix(prefix, labels[j], labels[i]);
    }
    forall l
      ensures l in post <==> prefix + l in img.post
    {
      assert l in post <==> l in multiset(labels);
      if prefix + l in img.post {
        var k :| 0 <= k < |img.post| && img.post[k] == prefix + l;
        assert labels[k] == (prefix + l)[|prefix|..];
        assert labels[k] == l;
      }
      if l in labels {
        var k :| 0 <= k < |labels| && labels[k] == l;
        assert img.post[k] == prefix + l;
      }
    }
    forall l
      ensures multiset(img.post)[prefix + l] == multiset(post)[l]
    {
      PostPathsCount(prefix, labels, l);
    }
  }

  /** Each label gives its path as many times as it is listed. */
  lemma {:induction false} PostPathsCount(prefix: string, labels: seq<string>, l: string)
    ensures multiset(PostPaths(prefix, labels))[prefix + l] == multiset(labels)[l]
  {
    if labels != [] {
      var rest := labels[1..];
      var paths := PostPaths(prefix, rest);
      PostPathsCount(prefix, rest, l);
      PrefixInjective(prefix, labels[0], l);
      assert labels == [labels[0]] + rest;
      SnocCount(labels[0], rest, l);
      assert PostPaths(prefix, labels) == [prefix + labels[0]] + paths;
      SnocCount(prefix + labels[0], paths, prefix + l);
    }
  }

  lemma PrefixInjective(prefix: string, a: string, b: string)
    ensures prefix + a == prefix + b <==> a == b
  {
    if prefix + a == prefix + b {
      assert (prefix + a)[|prefix|..] == a;
      assert (prefix + b)[|prefix|..] == b;
    }
  }

  lemma SnocCount<T>(x: T, rest: seq<T>, y: T)
    ensures multiset([x] + rest)[y] == multiset(rest)[y] + (if x == y then 1 else 0)
  {
  }

  /** `DiskImage.__lt__`: by name, then by directory. */
  predicate ImageLt(a: DiskImage, b: DiskImage)
  {
    Text.Lt(a.name, b.name) || (a.name == b.name && Text.Lt(a.directory, b.directory))
  }

  /**
   * `ImageLt` is a strict order, and it orders any two images whose name or
   * directory differ, so a sorted catalogue is unique.
   */
  lemma ImageLtOrder()
    ensures Sorting.StrictOrder(ImageLt)
    ensures forall a: DiskImage, b: DiskImage :: (a.name, a.directory) != (b.name, b.directory) ==> ImageLt(a, b) || ImageLt(b, a)
  {
    forall a: DiskImage
      ensures !ImageLt(a, a)
    {
      Text.LtIrreflexive(a.name);
      Text.LtIrreflexive(a.directory);
    }
    forall a: DiskImage, b: DiskImage, c: DiskImage | ImageLt(a, b) && ImageLt(b, c)
      ensures ImageLt(a, c)
    {
      if Text.Lt(a.name, b.name) && Text.Lt(b.name, c.name) {
        Text.LtTransitive(a.name, b.name, c.name);
      } else if a.name == b.name == c.name {
        Text.LtTransitive(a.directory, b.directory, c.directory);
      }
    }
    forall a: DiskImage, b: DiskImage | (a.name, a.directory) != (b.name, b.directory)
      ensures ImageLt(a, b) || ImageLt(b, a)
    {
      if a.name != b.name {
        Text.LtTotal(a.name, b.name);
      } else {
        Text.LtTotal(a.directory, b.directory);
      }
    }
  }

  /** `DiskImage.__str__`: the path of the image file. */
  function ImagePath(img: DiskImage): string
  {
    img.directory + "/" + img.name + "." + img.fileFormat
  }

  /** `DiskImage.info(key)`. */
  function Info(img: DiskImage, key: string): string
  {
    if key == "name" then img.name
    else if key == "n_post_scripts" then Text.NatToString(|img.post|) + " post scripts"
    else if key == "n_variables" then Text.NatToString(|img.variables|) + " variables"
    else "Unknown key"
  }

  /**
   * `info` reports the name for `name`; the counts it reports read back as
   * the number of post-install scripts and of variables; any other key is
   * unknown.
   */
  lemma InfoCounts(img: DiskImage)
    ensures Info(img, "name") == img.name
    ensures forall key :: key != "name" && key != "n_post_scripts" && key != "n_variables" ==>
                          Info(img, key) == "Unknown key"
    ensures var s := Info(img, "n_post_scripts");
      exists d :: s == d + " post scripts" && Text.AllDigits(d) && Text.DigitsValue(d) == |img.post|
    ensures var s := Info(img, "n_variables");
      exists d :: s == d + " variables" && Text.AllDigits(d) && Text.DigitsValue(d) == |img.variables|
  {
    Text.NatToStringRoundTrip(|img.post|);
    Text.NatToStringRoundTrip(|img.variables|);
  }
}
