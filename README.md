# Bakery, verified model of its core

Bakery writes SD-card images from a Raspberry Pi with a PiFace button-and-LCD
panel. Under the hardware, subprocess and thread plumbing are a few
deterministic rules. This project models them in Dafny and proves what they
promise:

- **Cursor lists** (`lib/utils.py`, `lib/selectlist.py`). A list of images
  with a wrapping `pointer`, a `selected` slot toggled by `select`, and, in
  the newer version, an `updated` flag. Both are classes whose methods update
  their fields in place (`Utils.SelectList`, `LegacyList.SelectList`).
- **Image catalogue** (`disk_image_list` in both files). Directory listings
  and `.vars` contents are inputs. The newer version classifies each file by
  its last two dots, groups files by directory plus base name, parses
  `name:prompt` lines, keeps groups that have an image format, and sorts by
  `(name, directory)` (`Catalogue`). The older version matches
  `(.+)\.img\.gz` and sorts (`LegacyList`).
- **Decision rules of `write_image`** (`WriteImage`):
  - the gzip ISIZE trailer (section 2.3.1 of RFC 1952, little-endian 32 bit);
  - the `(\d+) bytes` count in `dd`'s status lines;
  - the probe schedule, with time in integer milliseconds;
  - the environment handed to the post-install scripts, with its
    `PARTITION<n>` entries;
  - each script's `#TITLE# ` line;
  - how the call ends.
- **Device registry and event dispatch** (`Events`, `DiskDetector`,
  `UdevEvents`):
  - the probe watcher and its shared presence bit;
  - the udev watcher's action filter;
  - dispatch of queued events to the callbacks registered for their action,
    in registration order, up to the terminate signal;
  - the `add_device`/`remove_device` callbacks on the device list and their
    error branches.
- **Stand-alone baker** (`baker.py`, module `Baker`): `find_buttons` and the
  wrapping image index of the main loop.

Supporting modules hold the Python semantics the core relies on:
- `Text`: `str` ordering, `[::-1]`, `split(sep, maxsplit)`, `rstrip`, decimal
  digits, substring search.
- `Paths`: `os.path.basename` and `os.path.dirname`.
- `Sorting`: `list.sort`, a stable insertion sort, with uniqueness of the
  sorted result.
- `Wrappers`: `Option`.

Python exceptions become explicit results (`Option`, `Outcome.Raised`,
`Stop.Raised`, `Start.IndexError`). Everything the code reads from outside
becomes a parameter:
- the directory listings and file contents;
- probe exit codes, the udev monitor and the dispatcher queue;
- the prompt answers, `dd`'s return code, the partition nodes;
- the PiFace port values.

Where the specification and the code differ, the model follows the code.
- `UdevEventListener.register` takes only `(action, callback)`. It does not
  take a settle time: `settle_time` is a parameter of `UdevFunctionMap`, which
  ignores it.
- A `.vars` variable named `IMGDIR` or `DEVICE` replaces the base entry. The
  environment is built first and the prompted variables are written over it.

Behaviour of the code as written, kept in the model:
- The legacy regex is unanchored. `a.img.gz.bak` lists the image `a`, and the
  name is the greedy prefix before the last `.img.gz` of the first line of
  the file name that has a match.
- A name with one dot too many (`a.b.img`) is not an image.
- When a group has several image files, the last one listed sets the format.
- A gzip file shorter than 4 bytes makes `seek(-4, 2)` raise.
- ISIZE is the size modulo 2^32.
- `DiskEventListener` has no `error` method, so both of its error branches
  raise. The dispatcher thread then stops, and later callbacks for that event
  do not run.
- The probe watcher shares one `on` bit among all watched paths. So events
  alternate `add`, `remove`, ... over the whole pass, whichever path they
  name.
- The legacy `SelectList` moves its cursor to 0 (by `next`) or -1 (by `prev`)
  on an empty list and then fails with `IndexError`. A negative index reads
  from the end, as Python does.

## Model

| member | source | states |
|---|---|---|
| Utils.NextPointer | lib/utils.py:101-105 | `next` on a non-empty list: the cursor stays in range, moves to `(p+1) mod len` from inside the list and to 0 from past its end |
| Utils.PrevPointer | lib/utils.py:110-114 | `prev` on a non-empty list: from inside the list it moves to `(p+len-1) mod len`, so 0 goes to `len-1`; from the end or beyond it steps back by one, so a cursor at `len` left by `remove` comes back to `len-1` |
| Utils.NextPrevRoundTrip | lib/utils.py:100-116 | on a cursor in range, `prev` undoes `next` and `next` undoes `prev` |
| Utils.NextTimesWrap | lib/utils.py:100-107 | `k <= len` calls of `next` move the cursor `k` places, wrapping once |
| Utils.NextFullCycle | lib/utils.py:100-107 | `len` calls of `next` bring the cursor back to where it was, and no fewer do |
| Utils.ToggleSpec | lib/utils.py:125-129 | `select` puts the selection at the cursor exactly when it was elsewhere and clears it when it was there; two selects at one cursor leave the selection at the cursor when it was there, and no selection (`None`) when it was elsewhere |
| Utils.SelectThenMove | lib/utils.py:125-132 | on a list of two or more items, after selecting, moving the cursor with `next` or `prev` leaves the cursor off the selection |
| Utils.RemoveFirst | lib/utils.py:138-140 | `list.remove`: one element shorter, and the multiset loses exactly one copy of the item |
| Utils.SelectList.constructor | lib/utils.py:93-98 | empty list, cursor 0, nothing selected, not updated |
| Utils.SelectList.Current | lib/utils.py:118-123 | `None` exactly when the cursor is at or past the end, else the item at the cursor |
| Utils.SelectList.CurrentIsSelected | lib/utils.py:131-132 | true exactly when the selection is the cursor |
| Utils.SelectList.Next | lib/utils.py:100-107 | on an empty list, returns `None` and leaves the cursor; otherwise the cursor moves as `NextPointer` says and the new current item is returned; nothing else changes |
| Utils.SelectList.Prev | lib/utils.py:109-116 | the same for `prev` with `PrevPointer` |
| Utils.SelectList.Select | lib/utils.py:125-129 | the selection is toggled at the cursor; nothing else changes |
| Utils.SelectList.Append | lib/utils.py:134-136 | the item is added at the end and `updated` is set; cursor and selection stay |
| Utils.SelectList.Sort | lib/utils.py:181 | the items are reordered by the stable sort; cursor, selection and flag stay |
| Utils.SelectList.Remove | lib/utils.py:138-140 | `updated` is set; the first copy is removed when present; an absent item leaves the list as it was, where Python raises |
| Utils.PostPaths | lib/utils.py:30-32 | each label `l` becomes `prefix + l`, in order |
| Utils.NewDiskImagePost | lib/utils.py:26-32 | post-script paths are `directory/name.post.L`, in ascending order of `L`, one per label, each as many times as the label is listed |
| Utils.ImageLtOrder | lib/utils.py:35-45 | `__lt__` (name, then directory) is a strict order that is total on distinct `(name, directory)` pairs |
| Utils.InfoCounts | lib/utils.py:53-61 | `info` gives the name, `"<n> post scripts"` and `"<n> variables"` with the counts, else `"Unknown key"` |
| Catalogue.ClassifyGzImage | lib/utils.py:152-166 | `B.img.gz` is filed under `B` with format `img.gz` |
| Catalogue.ClassifyPostScript | lib/utils.py:152-163 | `B.post.L` adds the post label `L` to `B` |
| Catalogue.ClassifyRawImage | lib/utils.py:152-170 | a one-dot `B.img` is filed under `B` with format `img` |
| Catalogue.ClassifyVarsFile | lib/utils.py:152-173 | a one-dot `B.vars` is the variables file of `B` |
| Catalogue.ClassifyBasePrefix | lib/utils.py:152-153 | the group key's base name is a prefix of the file name |
| Catalogue.ClassifyGzShape | lib/utils.py:160-166 | only `base + ".img.gz"` is classified as a zipped image |
| Catalogue.ClassifyPostShape | lib/utils.py:160-163 | only `base + ".post." + L`, with no dot in `L`, is a post script |
| Catalogue.ClassifyRawShape | lib/utils.py:167-170 | only a one-dot `base + ".img"` is a raw image, so `a.b.img` is not |
| Catalogue.ClassifyVarsShape | lib/utils.py:167-172 | only a one-dot `base + ".vars"` is a variables file |
| Catalogue.TwoPieces | lib/utils.py:152 | a reversed split into two pieces cuts the name at its last dot |
| Catalogue.ThreePieces | lib/utils.py:152 | a reversed split into three pieces cuts it at its last two dots |
| Catalogue.FoldKeys | lib/utils.py:153-159 | a group exists exactly for the keys of the listed files |
| Catalogue.FoldGroupOf | lib/utils.py:154-177 | the grouping loop gives each key the group of its own files |
| Catalogue.GroupHasFormat | lib/utils.py:164-170 | a group has a format exactly when one of its files is an image |
| Catalogue.GroupLastFormat | lib/utils.py:164-170 | the format is that of the last image file listed for the key |
| Catalogue.GroupPost | lib/utils.py:161-163 | a label is in the group's post list exactly when a `.post.` file with that label was listed |
| Catalogue.GroupVars | lib/utils.py:171-177 | a group's variables are its `.vars` lines parsed in order |
| Catalogue.ParseVarsAppend | lib/utils.py:174-177 | parsing two runs of lines is parsing the first, then the second on top |
| Catalogue.ParseVarsLineSpec | lib/utils.py:175-177 | a line is right-stripped and split at its first `:`; a line without one changes nothing |
| Catalogue.VarsLineSets | lib/utils.py:175-177 | `name:prompt` sets `name` to the right-stripped prompt |
| Catalogue.ParseVarsLineAt | lib/utils.py:175-177 | a line defines exactly its own key and keeps every other one |
| Catalogue.ParseVarsKeys | lib/utils.py:174-177 | a key is defined exactly when some line defines it |
| Catalogue.ParseVarsLastWins | lib/utils.py:174-177 | a later line with the same key overwrites the earlier one |
| Catalogue.ParseVarsKeeps | lib/utils.py:174-177 | keys no line names keep their values |
| Catalogue.ImagesOfMembers | lib/utils.py:178-180 | an image is appended exactly for a key whose group has a format |
| Catalogue.KeySplits | lib/utils.py:147-153 | the key `pth/base` splits back into the directory `pth` and the name `base` |
| Catalogue.ImageFilePath | lib/utils.py:47-48 | `str(image)` is the path of the image file it came from |
| Catalogue.CatalogueSound | lib/utils.py:142-182 | every listed image comes from a listed image file with that name, directory and path |
| Catalogue.CatalogueComplete | lib/utils.py:142-182 | every listed image file yields an image with its base name and directory |
| Catalogue.CatalogueNamesDistinct | lib/utils.py:142-182 | no two images share name and directory |
| Catalogue.CatalogueSorted | lib/utils.py:181 | the catalogue is sorted by `(name, directory)` |
| Catalogue.CatalogueUnique | lib/utils.py:178-181 | any sorted permutation of the images is the catalogue, so the order of `file_groups` does not matter |
| Catalogue.CatalogueGroup | lib/utils.py:178-180 | each image is built from its key's group |
| Catalogue.CatalogueVariables | lib/utils.py:171-180 | each image's variables are the parsed `.vars` lines of its key |
| Catalogue.CataloguePostSound | lib/utils.py:30-32 | each post path is the path of a listed `.post.` file of that image |
| Catalogue.CataloguePostComplete | lib/utils.py:161-163 | each listed `.post.` file of an image appears among its post paths |
| Catalogue.ReadVars | lib/utils.py:173-177 | the loop over the `.vars` lines computes `ParseVars` |
| Catalogue.AddToGroup | lib/utils.py:160-177 | the branches on the reversed pieces update the group exactly as the file's kind says: post label, format or variables |
| Catalogue.FileInto | lib/utils.py:152-177 | one file updates the groups and their key order as the grouping step says |
| Catalogue.ScanFiles | lib/utils.py:148-177 | the loop over one directory's files folds them all in |
| Catalogue.ScanSource | lib/utils.py:146-177 | the loop over a source's subdirectories folds in all their files |
| Catalogue.AppendImages | lib/utils.py:178-180 | the images appended are those of the keys with a format, in key order; `updated` is set exactly when one was |
| Catalogue.ScanAll | lib/utils.py:145-177 | the loop over the sources builds the groups and key order of every file they list, in listing order |
| Catalogue.DiskImageList | lib/utils.py:142-182 | the list holds the sorted catalogue, with cursor 0 and no selection |
| LegacyList.PyIndex | lib/selectlist.py:45-46 | Python indexing: valid exactly for `-len <= p < len`, negatives counting from the end |
| LegacyList.ImageLtOrder | lib/selectlist.py:10-20 | `__lt__` (name, then directory) is a strict total order on images |
| LegacyList.SearchFromNone | lib/selectlist.py:69 | with no `.img.gz` after the start position, no match starts there |
| LegacyList.ImageNameSpec | lib/selectlist.py:69-71 | a single-line file name matches exactly when `.img.gz` occurs after at least one character; the name is the prefix before the last such occurrence |
| LegacyList.ImageNameOfSuffixed | lib/selectlist.py:69-71 | `B.img.gz` gives the name `B` |
| LegacyList.OccursAtHead | lib/selectlist.py:69 | an occurrence of the suffix starts with `.i` and fits in the name |
| LegacyList.TrailingTextIgnored | lib/selectlist.py:69-71 | text after the suffix without a dot is ignored: `B.img.gz.bak` gives `B` |
| LegacyList.EntryImage | lib/selectlist.py:67-71 | a matching file yields the image `pth/name` |
| LegacyList.ListedImagesMembers | lib/selectlist.py:65-71 | an image is listed exactly when some listed file yields it |
| LegacyList.NameHasNoSlash | lib/selectlist.py:69-71 | the matched name has no `/`, so `basename` gives it back |
| LegacyList.NameIsPrefix | lib/selectlist.py:69 | the matched group is a substring of the file name |
| LegacyList.LegacyCatalogueSpec | lib/selectlist.py:63-73 | the list is sorted by `(name, directory)` and holds exactly the images of the matching files |
| LegacyList.LegacyCatalogueUnique | lib/selectlist.py:72 | any sorted permutation of the matched images is the list |
| LegacyList.SelectList.constructor | lib/selectlist.py:26-31 | empty list, cursor 0, nothing selected |
| LegacyList.SelectList.Current | lib/selectlist.py:45-46 | the name at the cursor, negative cursors counting from the end; `None` where Python raises `IndexError` |
| LegacyList.SelectList.Next | lib/selectlist.py:33-37 | the cursor moves one on and wraps to 0 at the end; the result is `current()`, `None` on an empty list |
| LegacyList.SelectList.Prev | lib/selectlist.py:39-43 | the cursor moves one back and wraps to `len-1` below 0; the result is `current()`, `None` on an empty list |
| LegacyList.SelectList.Select | lib/selectlist.py:54-58 | the selection is toggled at the cursor |
| LegacyList.SelectList.CurrentIsSelected | lib/selectlist.py:60-61 | true exactly when the selection is the cursor |
| LegacyList.SelectList.SelectedFullPath | lib/selectlist.py:48-52 | `None` with nothing selected; otherwise `str()` of the selected image, `directory/name.img.gz`; an error where Python raises |
| LegacyList.SelectThenPath | lib/selectlist.py:48-58 | selecting at the cursor makes the full path that of the current image, or none when the cursor was selected; a second select there restores the selection when it was empty or at the cursor, and clears it when it was elsewhere |
| LegacyList.SelectThenMove | lib/selectlist.py:33-58 | moving after a select keeps the old selection and its path; selecting elsewhere replaces it |
| LegacyList.ScanFiles | lib/selectlist.py:68-71 | the loop over one directory's files extends the list with their images |
| LegacyList.DiskImageList | lib/selectlist.py:63-73 | the list holds the sorted legacy catalogue, with cursor 0 and no selection |
| WriteImage.LittleEndian32 | lib/utils.py:205 | `struct.unpack('<I')` is below 2^32 |
| WriteImage.UnpackPack | lib/utils.py:205 | decoding the little-endian bytes of `n < 2^32` gives `n` |
| WriteImage.PackUnpack | lib/utils.py:205 | encoding the value of four bytes gives them back |
| WriteImage.GzipSize | lib/utils.py:200-205 | the size is read exactly when the file has at least four bytes, and it is below 2^32 |
| WriteImage.GzipSizeReadsTrailer | lib/utils.py:201-205 | a file ending in the ISIZE bytes of `n` has size `n` |
| WriteImage.ImageSize | lib/utils.py:200-226 | `img.gz` sizes by its trailer or raises when too short; `img` by its length; any other format is unsupported |
| WriteImage.DigitsEnd | lib/utils.py:252 | the end of the digit run starting at `i` |
| WriteImage.CountFrom | lib/utils.py:252 | a captured group is a non-empty run of digits |
| WriteImage.ByteCountSpec | lib/utils.py:252-253 | no match exactly when no digit is followed by ` bytes`; a match is the whole first digit run that is followed by ` bytes` |
| WriteImage.ByteCountReadsBack | lib/utils.py:252-254 | a status line `pre + str(n) + " bytes" + post`, with no digit in `pre`, gives back `n` |
| WriteImage.CountFromSkips | lib/utils.py:252 | the search passes over characters that are not digits |
| WriteImage.CaughtUpSpec | lib/utils.py:258-259 | catching up moves `next_probe` by whole intervals to the first point not before the clock, and leaves it if already ahead |
| WriteImage.CatchUp | lib/utils.py:258-259 | the catch-up loop computes `CaughtUp` |
| WriteImage.RoundSpec | lib/utils.py:245-261 | a polling round probes exactly when the clock is past `next_probe`; `next_probe` stays on its schedule (whole intervals on, never back); after a matched status line with a non-zero image size the next probe is not in the past; otherwise (no match, or a size of 0, where the division raises and the bare `except` skips the catch-up) it moves on by one interval exactly when a probe was sent; with a clock that does not go back, a next probe less than one interval ahead stays so |
| WriteImage.HangBurst | lib/utils.py:245-248 | rounds without a matched line at one clock reading send no probe while `next_probe` is ahead, one probe per round, one interval apart, while it is behind, and stop probing only where the catch-up loop would have put `next_probe` |
| WriteImage.GatherVariables | lib/utils.py:236-238 | the loop over the variables builds the environment |
| WriteImage.EnvironmentSpec | lib/utils.py:236-238 | the environment has `IMGDIR`, `DEVICE` and every prompted variable, each set to its answer |
| WriteImage.Matching | lib/utils.py:281-283 | the partitions kept are listed nodes that contain the device |
| WriteImage.MatchingMembers | lib/utils.py:281-283 | a node is kept exactly when it is listed and contains the device |
| WriteImage.PartitionKeyInjective | lib/utils.py:284 | distinct numbers give distinct `PARTITION<n>` keys |
| WriteImage.NumberedSpec | lib/utils.py:280-285 | `PARTITION1..N` name the matching nodes in order; every other key keeps its value |
| WriteImage.NumberedKeys | lib/utils.py:280-285 | the variables after numbering are those before plus `PARTITION1..N` |
| WriteImage.NumberedParts | lib/utils.py:280-285 | `PARTITIONk` holds the k-th matching node |
| WriteImage.NumberedOthers | lib/utils.py:280-285 | a variable that is no partition key keeps its value |
| WriteImage.NumberPartitions | lib/utils.py:280-285 | the loop numbers the matching nodes consecutively |
| WriteImage.TitleFrom | lib/utils.py:292 | a captured title is non-empty and within one line |
| WriteImage.TitleSpec | lib/utils.py:289-295 | the title is that of the first line that has one, else the script's file name |
| WriteImage.TitleOfTagLine | lib/utils.py:292-294 | a line `pre + "#TITLE# " + t`, with no `#` in `pre`, has the title `t` |
| WriteImage.TitleFromSkips | lib/utils.py:292 | the search passes over characters other than `#` |
| WriteImage.ScriptTitle | lib/utils.py:288-295 | the loop over a script's lines stops at the first title line |
| WriteImage.Titles | lib/utils.py:287-299 | one title per post script, in order |
| WriteImage.Write | lib/utils.py:191-304 | raises exactly on a too-short `img.gz`; returns True exactly for a supported format with `dd` ending 0; the scripts then run with the numbered environment and their titles |
| Events.CallbacksAppend | lib/diskdetector.py:41-42 | `register` appends, so later maps' callbacks run after earlier ones |
| Events.CallbacksMembers | lib/diskdetector.py:104-115 | a callback runs for an action exactly when it was registered for that action |
| Events.Added | lib/diskdetector.py:54-58 | `add_device` succeeds exactly for a path not yet listed |
| Events.Removed | lib/diskdetector.py:60-64 | `remove_device` succeeds exactly for a listed path |
| Events.AddedRemovedMembers | lib/diskdetector.py:54-64 | adding puts the path among the others; removing from a distinct list takes it out and keeps the rest |
| Events.DistinctCount | lib/diskdetector.py:54-64 | a distinct list holds each of its paths once |
| Events.RemoveFirstDistinct | lib/diskdetector.py:62 | removing keeps the list distinct |
| Events.ApplyKeepsDistinct | lib/udevevents.py:97-107 | neither callback ever lets a path in twice |
| Events.AddThenRemove | lib/diskdetector.py:54-64 | adding a fresh path and removing it gives back the list |
| Events.RemoveFirstLast | lib/diskdetector.py:62 | removing a path found only at the end drops the end |
| DiskDetector.Watch | lib/diskdetector.py:90-93 | the presence bit stays 0 or 1 |
| DiskDetector.WatchAlternates | lib/diskdetector.py:86-93 | posted actions alternate, starting with the opposite of `on`, and the bit records the parity of the flips |
| DiskDetector.WatchDevices | lib/diskdetector.py:90-93 | every event names a watched path |
| DiskDetector.WatchQuiet | lib/diskdetector.py:90-93 | probes that agree with `on` post nothing |
| DiskDetector.WatchAppend | lib/diskdetector.py:88-94 | successive passes carry the bit on and post their events in order |
| DiskDetector.WatchDiskEvents | lib/diskdetector.py:90-93 | the pass over the watched paths computes `Watch` |
| DiskDetector.Handle | lib/diskdetector.py:96-111 | the dispatcher never takes more items than the queue delivers |
| DiskDetector.HandleTerminate | lib/diskdetector.py:99-102 | the terminate signal first ends the loop before any callback runs |
| DiskDetector.DispatchKeepsDistinct | lib/diskdetector.py:110-111 | dispatching keeps the device list distinct |
| DiskDetector.HandleKeepsDistinct | lib/diskdetector.py:96-111 | however the dispatcher runs, no path is listed twice |
| DiskDetector.InitialDispatch | lib/diskdetector.py:37-64 | with the constructor's table, `add` appends a new path, `remove` removes a listed one, and the error branches raise |
| DiskDetector.HandleStopped | lib/diskdetector.py:99-102 | after the loop has stopped, later items change nothing |
| DiskDetector.DiskEventListener.constructor | lib/diskdetector.py:23-39 | watches `/dev/sda`, no devices, `add` then `remove` registered |
| DiskDetector.DiskEventListener.Register | lib/diskdetector.py:41-42 | appends the map |
| DiskDetector.DiskEventListener.AddDevice | lib/diskdetector.py:54-58 | appends a new path; a listed path raises and leaves the list |
| DiskDetector.DiskEventListener.RemoveDevice | lib/diskdetector.py:60-64 | removes a listed path; an unlisted path raises and leaves the list |
| DiskDetector.DiskEventListener.DispatchEvent | lib/diskdetector.py:104-111 | the matching callbacks run in order until one raises |
| DiskDetector.DiskEventListener.HandleEvents | lib/diskdetector.py:96-111 | the loop over the queue computes `Handle` |
| UdevEvents.ForwardAppend | lib/udevevents.py:68-70 | forwarding keeps the monitor's order |
| UdevEvents.ForwardMembers | lib/udevevents.py:68-70 | an event is posted exactly when the monitor yielded it with `add` or `remove` |
| UdevEvents.WatchUdevEvents | lib/udevevents.py:63-70 | the loop over the monitor computes `Forward` |
| UdevEvents.Handle | lib/udevevents.py:72-87 | the dispatcher never takes more items than delivered, and takes all unless terminated |
| UdevEvents.HandleTerminate | lib/udevevents.py:75-78 | the terminate signal first ends the loop before any callback runs |
| UdevEvents.DispatchKeepsDistinct | lib/udevevents.py:86-87 | dispatching keeps the device list distinct |
| UdevEvents.HandleKeepsDistinct | lib/udevevents.py:95-107 | the module's device list never holds a node twice |
| UdevEvents.HandleStopped | lib/udevevents.py:75-78 | after the terminate signal, later items change nothing |
| UdevEvents.UdevEventListener.constructor | lib/udevevents.py:22-23 | no maps registered |
| UdevEvents.UdevEventListener.Register | lib/udevevents.py:37-38 | appends a map with no settle time |
| UdevEvents.SettleTimeIgnored | lib/udevevents.py:9-11 | the settle time makes no difference to the map |
| UdevEvents.DeviceList.constructor | lib/udevevents.py:95 | the list starts empty |
| UdevEvents.DeviceList.AddDevice | lib/udevevents.py:97-101 | appends an absent node; a present one leaves the list |
| UdevEvents.DeviceList.RemoveDevice | lib/udevevents.py:103-107 | removes a present node; an absent one leaves the list |
| UdevEvents.DeviceList.DispatchEvent | lib/udevevents.py:80-91 | every matching callback runs, in registration order |
| UdevEvents.DeviceList.HandleEvents | lib/udevevents.py:72-87 | the loop over the queue computes `Handle` |
| Baker.Greedy | baker.py:11-16 | the greedy pass yields one 0/1 entry per weight |
| Baker.Buttons | baker.py:9-18 | `find_buttons` returns eight entries, each 0 or 1 |
| Baker.FindButtons | baker.py:9-18 | the loop and the reverse compute `Buttons` |
| Baker.GreedyHalves | baker.py:11-16 | for `n` within `j` bits, the entries are those of `n // 2` followed by `n % 2` |
| Baker.GreedyBits | baker.py:11-17 | reversed, the entries are the bits of `n` and their weighted sum is `n` |
| Baker.ButtonsAreBits | baker.py:9-18 | for `0 <= n <= 255`, entry `i` is bit `i` of `n` and `sum(b[i] * 2**i) == n` |
| Baker.GreedySaturates | baker.py:11-16 | with at least `2**j - 1` left, every weight fits |
| Baker.GreedyEmpty | baker.py:11-16 | with nothing left, no weight fits |
| Baker.ButtonsSaturate | baker.py:9-18 | `n >= 255` presses every button; `n <= 0` none |
| Baker.NavigateSpec | baker.py:59-68 | S1 moves to `(image+1) mod max`, S2 to `(image-1) mod max`, both together or neither keep the index, and it stays in range |
| Baker.Run | baker.py:35-68 | more than 8 images blink the error, none fails on `ls[0]`, otherwise each event moves the index as `Navigate` says and the LED value `2**image` fits the port |
| Baker.Pow2Monotone | baker.py:45 | `2**i <= 2**j` for `i <= j` |

## Left out

- Processes, threads and queues:
  - the `zcat` and `dd` subprocesses, `SIGUSR1`, the `read_pipe` thread, the queue timeouts and the `poll` loops (lib/utils.py:184-189, 207-261) are concurrency;
  - the inverted start-wait loop at lib/utils.py:211-213, which calls an undefined `sleep`, is part of that plumbing;
  - starting and stopping the detector process and the dispatcher thread (`activate`/`deactivate`).
  - The dispatcher is modelled over the sequence of items the queue delivers.
- The clock is read once per catch-up (`CatchUp`), where the source reads `time.time()` on every test.
- HangBurst: follows rounds at a single clock reading (a loop held up and then resumed); rounds at changing readings are covered one at a time by RoundSpec.
- Floating point: the percentage `100*bytes/size` and its display. The `ZeroDivisionError` for a size of 0 is swallowed by the bare `except`, and it only skips the catch-up: `Write` does not depend on it, and `Round` takes the size being non-zero as its `sized` flag.
- `ByteCount` reads the decoded text of a status line. The source reads `str(line)` of a `bytes` line, whose escapes can add digits: `str(b'\x1112 bytes')` reads as 112 where the line says 12, and a non-ASCII byte such as `\x99` before the digits does the same. These escape cases are not modelled.
- `\d` is modelled as the ASCII digits; Python also accepts other Unicode decimal digits.
- WriteImage.Contains: `re.search(device, node)` treats the device as a regular expression; the model matches it literally.
- Time is modelled as integer milliseconds, with the probe interval 3000.
- External calls (`probe.sh`, `freshen.sh`, the scripts themselves), pyudev enumeration, `get_device_partitions`, `mount`/`umount` and `scan`: their results become inputs or they are outside the core.
- `Drive`, `lib/sdimages.py`, `lib/bakerydisplay.py`, `lib/iface.py`, `lib/devicelistener.py` and the wiring scripts are not part of this model.
- `baker.py`'s `error()` is modelled by its start (`Start.Blinking`), not its endless LED loop. The wait for button release and press is modelled by taking the pressed values as input. S3 only prints.
- Callbacks other than `add_device`/`remove_device` (`Events.Other`) do not change the device list in the model.
- `__str__` of the function maps and events only formats text.
- The legacy `sources` field is never used and is not modelled.
- Catalogue.DiskImageList: the `Source` shape lists subdirectories and files only, so the raises of the file system are not modelled. A plain file directly under a source directory makes `os.listdir(pth)` raise `NotADirectoryError` (lib/utils.py:148), and a subdirectory named like `x.vars` makes `open` raise (lib/utils.py:173); either aborts the catalogue.
- LegacyList.DiskImageList: likewise, the `NotADirectoryError` of `os.listdir(pth)` for a plain file directly under a source directory (lib/selectlist.py:68) is not modelled.
- Utils.SelectList.Remove: an absent item is reported by `found == false` with the list unchanged, where Python's `list.remove` raises `ValueError` after `updated` is set.
- Utils.SelectList.Sort: Timsort is modelled as an insertion sort by `lt`. The two agree whenever `lt` is a strict order that is total on the items (`Sorting.SortedUnique`), which holds for both catalogues.
