/**
 * The decisions `write_image` takes while it puts an image on a card:
 * how large the written data will be, how the byte count is read back from
 * `dd`'s status lines, when the next status probe is due, which environment
 * the post-install scripts run with, which title each script is shown
 * under, and whether the write counts as a success. The processes, the
 * pipe-reading thread and the display are not modelled; what they deliver
 * (file contents, status lines, clock readings, answers, `dd`'s return
 * code, the partition nodes) are parameters.
 */
module WriteImage {

  import opened Wrappers
  import Text
  import Paths
  import Utils

  newtype byte = x: int | 0 <= x < 256

  const TwoTo32: nat := 0x1_0000_0000

  // ---------------------------------------------------------------------
  // Image size
  // ---------------------------------------------------------------------

  /** `struct.unpack('<I', b)[0]`: four bytes read least significant first. */
  function LittleEndian32(b: seq<byte>): (n: nat)
    requires |b| == 4
    ensures n < TwoTo32
  {
    b[0] as nat + 0x100 * b[1] as nat + 0x1_0000 * b[2] as nat + 0x100_0000 * b[3] as nat
  }

  /** `struct.pack('<I', n)`: the four bytes of `n`, least significant first. */
  function LittleEndian32Bytes(n: nat): (b: seq<byte>)
    requires n < TwoTo32
    ensures |b| == 4
  {
    [(n % 0x100) as byte, (n / 0x100 % 0x100) as byte,
     (n / 0x1_0000 % 0x100) as byte, (n / 0x100_0000) as byte]
  }

  /** Packing a 32-bit number and unpacking it gives the number back. */
  lemma UnpackPack(n: nat)
    requires n < TwoTo32
    ensures LittleEndian32(LittleEndian32Bytes(n)) == n
  {
    var b := LittleEndian32Bytes(n);
    assert n == n % 0x100 + 0x100 * (n / 0x100);
    assert n / 0x100 == n / 0x100 % 0x100 + 0x100 * (n / 0x1_0000);
    assert n / 0x1_0000 == n / 0x1_0000 % 0x100 + 0x100 * (n / 0x100_0000);
  }

  /** Unpacking four bytes and packing the number gives the bytes back. */
  lemma PackUnpack(b: seq<byte>)
    requires |b| == 4
    ensures LittleEndian32Bytes(LittleEndian32(b)) == b
  {
    var n := LittleEndian32(b);
    var c := LittleEndian32Bytes(n);
    assert n / 0x100 == b[1] as nat + 0x100 * b[2] as nat + 0x1_0000 * b[3] as nat;
    assert n / 0x1_0000 == b[2] as nat + 0x100 * b[3] as nat;
    assert n / 0x100_0000 == b[3] as nat;
    assert c[0] == b[0] && c[1] == b[1] && c[2] == b[2] && c[3] == b[3];
  }

  /**
   * The uncompressed size stored in a gzip file: its last four bytes, the
   * ISIZE field of section 2.3.1 of RFC 1952. A file shorter than four
   * bytes makes `seek(-4, 2)` fail, which is `None` here.
   */
  function GzipSize(contents: seq<byte>): (r: Option<nat>)
    ensures r.Some? <==> |contents| >= 4
    ensures r.Some? ==> r.value < TwoTo32
  {
    if |contents| < 4 then None
    else Some(LittleEndian32(contents[|contents| - 4..]))
  }

  /** A gzip file whose trailer records size `n` is read as size `n`. */
  lemma GzipSizeReadsTrailer(body: seq<byte>, n: nat)
    requires n < TwoTo32
    ensures GzipSize(body + LittleEndian32Bytes(n)) == Some(n)
  {
    var f := body + LittleEndian32Bytes(n);
    assert f[|f| - 4..] == LittleEndian32Bytes(n);
    UnpackPack(n);
  }

  /** How `write_image` sizes an image before writing it. */
  datatype Size = Known(bytes: nat) | Unsupported | TooShort

  /**
   * `img.gz` images are sized by their gzip trailer, `img` images by their
   * length; any other format is refused.
   */
  function ImageSize(fileFormat: string, contents: seq<byte>): (r: Size)
    ensures fileFormat == "img.gz" ==>
      (|contents| < 4 <==> r == TooShort) &&
      (|contents| >= 4 ==> r == Known(LittleEndian32(contents[|contents| - 4..])))
    ensures fileFormat == "img" ==> r == Known(|contents|)
    ensures r == Unsupported <==> fileFormat != "img.gz" && fileFormat != "img"
  {
    if fileFormat == "img.gz" then
      match GzipSize(contents)
      case Some(n) => Known(n)
      case None => TooShort
    else if fileFormat == "img" then Known(|contents|)
    else Unsupported
  }

  // ---------------------------------------------------------------------
  // `re.search(r"(\d+) bytes", line)`
  // ---------------------------------------------------------------------

  const BytesWord := " bytes"

  /** End of the run of decimal digits that starts at `i`. */
  function DigitsEnd(s: string, i: nat): (e: nat)
    requires i <= |s|
    ensures i <= e <= |s|
    ensures forall k :: i <= k < e ==> Text.IsDigit(s[k])
    ensures e < |s| ==> !Text.IsDigit(s[e])
    decreases |s| - i
  {
    if i < |s| && Text.IsDigit(s[i]) then DigitsEnd(s, i + 1) else i
  }

  /**
   * The search tried from start `i` onwards: at a digit, the greedy `\d+`
   * backs off from the end of the run until ` bytes` follows.
   */
  function CountFrom(s: string, i: nat): (r: Option<string>)
    requires i <= |s|
    ensures r.Some? ==> r.value != [] && Text.AllDigits(r.value)
    decreases |s| - i
  {
    if i == |s| then None
    else if Text.IsDigit(s[i]) then
      match Text.LastOccurrence(s, BytesWord, i, DigitsEnd(s, i))
      case Some(e) => Some(s[i..e])
      case None => CountFrom(s, i + 1)
    else CountFrom(s, i + 1)
  }

  /** The number of bytes a `dd` status line reports, if it reports one. */
  function ByteCount(line: string): Option<nat>
  {
    match CountFrom(line, 0)
    case Some(d) => Some(Text.DigitsValue(d))
    case None => None
  }

  /** A digit is immediately followed by ` bytes` at `e`. */
  predicate CountEndsAt(s: string, e: nat)
  {
    0 < e <= |s| && Text.IsDigit(s[e - 1]) && Text.OccursAt(s, BytesWord, e)
  }

  /**
   * No count ends at or before `i`, and when `i` is inside a run of digits,
   * none ends in the rest of that run: what the search from 0 has learnt
   * when it reaches start `i`.
   */
  ghost predicate NoCountBefore(s: string, i: nat)
    requires i <= |s|
  {
    && (forall e: nat :: e <= i ==> !CountEndsAt(s, e))
    && (0 < i && Text.IsDigit(s[i - 1]) ==>
          forall x :: i < x <= DigitsEnd(s, i) ==> !Text.OccursAt(s, BytesWord, x))
  }

  /** When the search moves past start `i` without a match, it has learnt `NoCountBefore(s, i + 1)`. */
  lemma NoCountStep(s: string, i: nat)
    requires i < |s| && NoCountBefore(s, i)
    requires !Text.IsDigit(s[i]) || Text.LastOccurrence(s, BytesWord, i, DigitsEnd(s, i)).None?
    ensures NoCountBefore(s, i + 1)
  {
    if Text.IsDigit(s[i]) {
      assert DigitsEnd(s, i + 1) == DigitsEnd(s, i);
    }
  }

  /** ` bytes` starts with a space, which is no digit. */
  lemma BytesWordAt(s: string, x: nat)
    requires Text.OccursAt(s, BytesWord, x)
    ensures x < |s| && !Text.IsDigit(s[x])
  {
    assert s[x..x + |BytesWord|][0] == s[x];
  }

  /** No count ends before the end `e` of a match at start `i`. */
  lemma NoEarlierCount(s: string, i: nat, e: nat)
    requires i < e && e <= |s| && e <= DigitsEnd(s, i) && NoCountBefore(s, i)
    ensures forall x: nat :: CountEndsAt(s, x) ==> e <= x
  {
    forall x: nat | CountEndsAt(s, x)
      ensures e <= x
    {
      if i < x < e {
        BytesWordAt(s, x);
      }
    }
  }

  /** A match at start `i` ending at `e` is the first count, whole. */
  lemma MatchIsFirst(s: string, i: nat, e: nat)
    requires i < |s| && NoCountBefore(s, i) && Text.IsDigit(s[i])
    requires Text.LastOccurrence(s, BytesWord, i, DigitsEnd(s, i)) == Some(e)
    ensures CountFromIs(s, i, s[i..e])
  {
    MatchEnds(s, i, e);
    NoEarlierCount(s, i, e);
    StartsRun(s, i, e);
    FirstCount(s, i, e);
  }

  /** A match at start `i` ending at `e` means `i` starts its run of digits. */
  lemma StartsRun(s: string, i: nat, e: nat)
    requires i < e && e <= |s| && e <= DigitsEnd(s, i) && NoCountBefore(s, i)
    requires Text.OccursAt(s, BytesWord, e)
    ensures i == 0 || !Text.IsDigit(s[i - 1])
  {
  }

  /** The digits from `a` up to the first count's end `e`, when `a` starts their run. */
  lemma FirstCount(s: string, a: nat, e: nat)
    requires a < e && CountEndsAt(s, e) && (a == 0 || !Text.IsDigit(s[a - 1]))
    requires forall x: nat :: CountEndsAt(s, x) ==> e <= x
    ensures CountFromIs(s, a, s[a..e])
  {
    assert a + |s[a..e]| == e;
  }

  /** A match at start `i` ends a count, within the run of digits. */
  lemma MatchEnds(s: string, i: nat, e: nat)
    requires i < |s| && Text.LastOccurrence(s, BytesWord, i, DigitsEnd(s, i)) == Some(e)
    ensures i < e <= DigitsEnd(s, i) && CountEndsAt(s, e)
  {
    assert i <= e - 1 < DigitsEnd(s, i);
  }

  /** Once the search has passed the whole line, no count ends anywhere. */
  lemma NoCountAtEnd(s: string)
    requires NoCountBefore(s, |s|)
    ensures forall e: nat :: !CountEndsAt(s, e)
  {
  }

  /** From a start that `NoCountBefore` describes, the search finds a count exactly when one exists. */
  lemma {:induction false} CountFromNone(s: string, i: nat)
    requires i <= |s| && NoCountBefore(s, i)
    ensures CountFrom(s, i).None? <==> forall e: nat :: !CountEndsAt(s, e)
    decreases |s| - i
  {
    if i == |s| {
      NoCountAtEnd(s);
    } else {
      var m := Text.LastOccurrence(s, BytesWord, i, DigitsEnd(s, i));
      if Text.IsDigit(s[i]) && m.Some? {
        MatchEnds(s, i, m.value);
        assert CountFrom(s, i).Some?;
      } else {
        NoCountStep(s, i);
        CountFromNone(s, i + 1);
        assert CountFrom(s, i) == CountFrom(s, i + 1);
      }
    }
  }

  /** From a start that `NoCountBefore` describes, what the search finds is the first count, whole. */
  lemma {:induction false} CountFromSome(s: string, i: nat)
    requires i <= |s| && NoCountBefore(s, i)
    ensures CountFrom(s, i).Some? ==> exists a :: CountFromIs(s, a, CountFrom(s, i).value)
    decreases |s| - i
  {
    if i < |s| {
      var m := Text.LastOccurrence(s, BytesWord, i, DigitsEnd(s, i));
      if Text.IsDigit(s[i]) && m.Some? {
        MatchIsFirst(s, i, m.value);
      } else {
        NoCountStep(s, i);
        CountFromSome(s, i + 1);
      }
    }
  }

  /**
   * `d` is the run of digits starting at `a` (not preceded by a digit) that
   * ends where the first ` bytes` preceded by a digit begins.
   */
  ghost predicate CountFromIs(s: string, a: nat, d: string)
  {
    && a + |d| <= |s| && d == s[a..a + |d|]
    && CountEndsAt(s, a + |d|)
    && (a == 0 || !Text.IsDigit(s[a - 1]))
    && forall x: nat :: CountEndsAt(s, x) ==> a + |d| <= x
  }

  /**
   * A status line reports a count exactly when some digit is followed by
   * ` bytes`; the count is the whole run of digits before the first such
   * ` bytes`, read as a decimal number.
   */
  lemma ByteCountSpec(line: string)
    ensures ByteCount(line).None? <==> forall e: nat :: !CountEndsAt(line, e)
    ensures ByteCount(line).Some? ==>
      exists a, d :: CountFromIs(line, a, d) && Text.AllDigits(d) &&
                     ByteCount(line) == Some(Text.DigitsValue(d))
  {
    CountFromNone(line, 0);
    CountFromSome(line, 0);
  }

  /** Skipping text without digits does not change where the search ends up. */
  lemma {:induction false} CountFromSkips(s: string, i: nat, j: nat)
    requires i <= j <= |s|
    requires forall k :: i <= k < j ==> !Text.IsDigit(s[k])
    ensures CountFrom(s, i) == CountFrom(s, j)
    decreases j - i
  {
    if i < j {
      CountFromSkips(s, i + 1, j);
    }
  }

  /**
   * `dd` prints the count as decimal digits followed by ` bytes`; after a
   * prefix without digits the count read back is the count printed.
   */
  lemma ByteCountReadsBack(pre: string, n: nat, post: string)
    requires forall k :: 0 <= k < |pre| ==> !Text.IsDigit(pre[k])
    ensures ByteCount(pre + Text.NatToString(n) + BytesWord + post) == Some(n)
  {
    var digits := Text.NatToString(n);
    var s := pre + digits + BytesWord + post;
    var i := |pre|;
    var e := i + |digits|;
    CountFromSkips(s, 0, i);
    assert s[i..e] == digits;
    assert DigitsEnd(s, e) == e by {
      assert s[e] == ' ';
    }
    assert forall k :: i <= k < e ==> s[k] == digits[k - i];
    DigitsEndAcross(s, i, e);
    assert s[e..e + |BytesWord|] == BytesWord;
    assert Text.OccursAt(s, BytesWord, e);
    Text.NatToStringRoundTrip(n);
  }

  /** Over a stretch of digits, the run end is the run end after the stretch. */
  lemma {:induction false} DigitsEndAcross(s: string, i: nat, j: nat)
    requires i <= j <= |s|
    requires forall k :: i <= k < j ==> Text.IsDigit(s[k])
    ensures DigitsEnd(s, i) == DigitsEnd(s, j)
    decreases j - i
  {
    if i < j {
      DigitsEndAcross(s, i + 1, j);
    }
  }

  // ---------------------------------------------------------------------
  // Probe schedule (times in milliseconds)
  // ---------------------------------------------------------------------

  /** `probe_sleep`: three seconds between status probes. */
  const ProbeSleep: nat := 3000

  /**
   * The probe check at the top of each polling round: at a time past
   * `nextProbe` a probe is sent and the next one is due one interval later.
   */
  function ProbeCheck(nextProbe: int, now: int): (bool, int)
  {
    if now > nextProbe then (true, nextProbe + ProbeSleep) else (false, nextProbe)
  }

  /** Where `while now > next_probe: next_probe += probe_sleep` ends. */
  function CaughtUp(nextProbe: int, now: int): int
    decreases now - nextProbe
  {
    if now > nextProbe then CaughtUp(nextProbe + ProbeSleep, now) else nextProbe
  }

  /**
   * After catching up, the next probe is the first time on the schedule
   * of `nextProbe` that is not in the past: a whole number of intervals
   * later, not before `now`, and less than one interval after it.
   */
  lemma {:induction false} CaughtUpSpec(nextProbe: int, now: int)
    ensures CaughtUp(nextProbe, now) >= now
    ensures CaughtUp(nextProbe, now) >= nextProbe
    ensures (CaughtUp(nextProbe, now) - nextProbe) % ProbeSleep == 0
    ensures now > nextProbe ==> CaughtUp(nextProbe, now) < now + ProbeSleep
    ensures now <= nextProbe ==> CaughtUp(nextProbe, now) == nextProbe
    decreases now - nextProbe
  {
    if now > nextProbe {
      CaughtUpSpec(nextProbe + ProbeSleep, now);
    }
  }

  /** The catch-up loop run after a status line has been read. */
  method CatchUp(nextProbe: int, now: int) returns (r: int)
    ensures r == CaughtUp(nextProbe, now)
  {
    r := nextProbe;
    while now > r
      invariant CaughtUp(r, now) == CaughtUp(nextProbe, now)
      decreases now - r
    {
      r := r + ProbeSleep;
    }
  }

  /**
   * One round of the polling loop: the probe check at clock `now`, then,
   * when the status line read during the round matched, the catch-up at
   * the later clock reading `later`. The catch-up follows the percentage
   * computation, which divides by the image size: with `sized` false (a
   * size of 0) the division raises, the bare `except` swallows it, and the
   * catch-up is skipped. Yields whether a probe was sent and the new
   * `next_probe`.
   */
  function Round(nextProbe: int, now: int, matched: bool, sized: bool, later: int): (bool, int)
  {
    var (probed, np) := ProbeCheck(nextProbe, now);
    (probed, if matched && sized then CaughtUp(np, later) else np)
  }

  /**
   * A round probes exactly when the clock is past `next_probe`; it keeps
   * `next_probe` on its schedule (whole intervals on, never back); after a
   * matched line with a non-zero size the next probe is not in the past;
   * otherwise it moves on by one interval exactly when a probe was sent;
   * and with a clock that does not go back, a next probe less than one
   * interval ahead stays so.
   */
  lemma RoundSpec(nextProbe: int, now: int, matched: bool, sized: bool, later: int)
    ensures Round(nextProbe, now, matched, sized, later).0 <==> now > nextProbe
    ensures Round(nextProbe, now, matched, sized, later).1 >= nextProbe
    ensures (Round(nextProbe, now, matched, sized, later).1 - nextProbe) % ProbeSleep == 0
    ensures matched && sized ==> Round(nextProbe, now, matched, sized, later).1 >= later
    ensures !(matched && sized) ==>
              Round(nextProbe, now, matched, sized, later).1 ==
              nextProbe + (if now > nextProbe then ProbeSleep else 0)
    ensures nextProbe < now + ProbeSleep && now <= later ==>
              Round(nextProbe, now, matched, sized, later).1 < later + ProbeSleep
  {
    var np := ProbeCheck(nextProbe, now).1;
    CaughtUpSpec(np, later);
  }

  /**
   * `k` rounds in which no status line matched, all at the same clock
   * reading, as after the loop was held up: the number of probes sent and
   * the final `next_probe`.
   */
  function Hang(nextProbe: int, now: int, k: nat): (nat, int)
    decreases k
  {
    if k == 0 then (0, nextProbe)
    else
      var (probed, np) := ProbeCheck(nextProbe, now);
      var (count, last) := Hang(np, now, k - 1);
      (count + (if probed then 1 else 0), last)
  }

  /**
   * After a hang the rounds send a burst of probes, one per round and one
   * interval apart, until `next_probe` catches up with the clock: no probe
   * when it is already ahead, one in every round while it is behind, and
   * fewer probes than rounds only when it ends where the catch-up loop
   * would have put it.
   */
  lemma {:induction false} HangBurst(nextProbe: int, now: int, k: nat)
    ensures Hang(nextProbe, now, k).0 <= k
    ensures Hang(nextProbe, now, k).1 == nextProbe + Hang(nextProbe, now, k).0 * ProbeSleep
    ensures now <= nextProbe ==> Hang(nextProbe, now, k) == (0, nextProbe)
    ensures now > nextProbe + (k - 1) * ProbeSleep ==>
              Hang(nextProbe, now, k) == (k, nextProbe + k * ProbeSleep)
    ensures Hang(nextProbe, now, k).0 < k ==>
              Hang(nextProbe, now, k).1 == CaughtUp(nextProbe, now)
    decreases k
  {
    if k > 0 {
      if now > nextProbe {
        HangBurst(nextProbe + ProbeSleep, now, k - 1);
      } else {
        HangBurst(nextProbe, now, k - 1);
      }
    }
  }

  // ---------------------------------------------------------------------
  // Environment of the post-install scripts
  // ---------------------------------------------------------------------

  /**
   * `{'IMGDIR': directory, 'DEVICE': device}` with each prompted variable
   * then set to the answer `ask` gives for it and its default.
   */
  function Environment(directory: string, device: string, variables: map<string, string>,
                       ask: (string, string) -> string): map<string, string>
  {
    map["IMGDIR" := directory, "DEVICE" := device] +
    map v | v in variables :: ask(v, variables[v])
  }

  /** The variables asked for before writing. */
  method GatherVariables(directory: string, device: string, variables: map<string, string>,
                         ask: (string, string) -> string)
    returns (env: map<string, string>)
    ensures env == Environment(directory, device, variables, ask)
  {
    env := map["IMGDIR" := directory, "DEVICE" := device];
    var todo := variables.Keys;
    while todo != {}
      invariant todo <= variables.Keys
      invariant env == map["IMGDIR" := directory, "DEVICE" := device] +
                       map v | v in variables.Keys - todo :: ask(v, variables[v])
      decreases |todo|
    {
      var v :| v in todo;
      env := env[v := ask(v, variables[v])];
      todo := todo - {v};
    }
    assert variables.Keys - todo == variables.Keys;
  }

  /**
   * The environment holds `IMGDIR`, `DEVICE` and every prompted variable;
   * each prompted variable holds its answer, even one named `IMGDIR` or
   * `DEVICE`.
   */
  lemma EnvironmentSpec(directory: string, device: string, variables: map<string, string>,
                        ask: (string, string) -> string)
    ensures var env := Environment(directory, device, variables, ask);
      && env.Keys == {"IMGDIR", "DEVICE"} + variables.Keys
      && (forall v :: v in variables ==> env[v] == ask(v, variables[v]))
      && ("IMGDIR" !in variables ==> env["IMGDIR"] == directory)
      && ("DEVICE" !in variables ==> env["DEVICE"] == device)
  {
  }

  /** `re.search(device, node)` with the device name taken literally. */
  predicate Contains(node: string, device: string)
  {
    exists i :: 0 <= i <= |node| && Text.OccursAt(node, device, i)
  }

  /** The nodes that mention the device, in enumeration order. */
  function Matching(device: string, nodes: seq<string>): (r: seq<string>)
    ensures forall x :: x in r ==> x in nodes && Contains(x, device)
  {
    if nodes == [] then []
    else
      var pre := Matching(device, nodes[..|nodes| - 1]);
      if Contains(nodes[|nodes| - 1], device) then pre + [nodes[|nodes| - 1]] else pre
  }

  /** A node is kept exactly when it is listed and mentions the device. */
  lemma {:induction false} MatchingMembers(device: string, nodes: seq<string>, x: string)
    ensures x in Matching(device, nodes) <==> x in nodes && Contains(x, device)
  {
    if nodes != [] {
      var pre := nodes[..|nodes| - 1];
      MatchingMembers(device, pre, x);
      assert nodes == pre + [nodes[|nodes| - 1]];
    }
  }

  /** `"PARTITION{}".format(n)`. */
  function PartitionKey(n: nat): string
  {
    "PARTITION" + Text.NatToString(n)
  }

  /** Partition keys of different numbers differ. */
  lemma PartitionKeyInjective(m: nat, n: nat)
    requires PartitionKey(m) == PartitionKey(n)
    ensures m == n
  {
    assert Text.NatToString(m) == PartitionKey(m)[9..];
    assert Text.NatToString(n) == PartitionKey(n)[9..];
    Text.NatToStringInjective(m, n);
  }

  /** `env` with `PARTITION1` .. `PARTITIONn` set to the matched nodes in order. */
  function Numbered(env: map<string, string>, matched: seq<string>): map<string, string>
  {
    if matched == [] then env
    else Numbered(env, matched[..|matched| - 1])[PartitionKey(|matched|) := matched[|matched| - 1]]
  }

  /**
   * Partitions are numbered from 1, consecutively, in enumeration order;
   * every other variable keeps its value.
   */
  lemma NumberedSpec(env: map<string, string>, matched: seq<string>)
    ensures Numbered(env, matched).Keys ==
            env.Keys + set k | 1 <= k <= |matched| :: PartitionKey(k)
    ensures forall k :: 1 <= k <= |matched| ==> Numbered(env, matched)[PartitionKey(k)] == matched[k - 1]
    ensures forall v :: v in env && (forall k :: 1 <= k <= |matched| ==> v != PartitionKey(k)) ==>
                        Numbered(env, matched)[v] == env[v]
  {
    NumberedKeys(env, matched);
    NumberedParts(env, matched);
    NumberedOthers(env, matched);
  }

  lemma {:induction false} NumberedKeys(env: map<string, string>, matched: seq<string>)
    ensures Numbered(env, matched).Keys ==
            env.Keys + set k | 1 <= k <= |matched| :: PartitionKey(k)
  {
    if matched != [] {
      var pre := matched[..|matched| - 1];
      NumberedKeys(env, pre);
      assert (set k | 1 <= k <= |matched| :: PartitionKey(k)) ==
             (set k | 1 <= k <= |pre| :: PartitionKey(k)) + {PartitionKey(|matched|)};
    }
  }

  lemma {:induction false} NumberedParts(env: map<string, string>, matched: seq<string>)
    ensures forall k :: 1 <= k <= |matched| ==> PartitionKey(k) in Numbered(env, matched)
    ensures forall k :: 1 <= k <= |matched| ==> Numbered(env, matched)[PartitionKey(k)] == matched[k - 1]
  {
    if matched != [] {
      var pre := matched[..|matched| - 1];
      NumberedParts(env, pre);
      forall k | 1 <= k < |matched|
        ensures Numbered(env, matched)[PartitionKey(k)] == matched[k - 1]
      {
        if PartitionKey(k) == PartitionKey(|matched|) {
          PartitionKeyInjective(k, |matched|);
        }
      }
    }
  }

  lemma {:induction false} NumberedOthers(env: map<string, string>, matched: seq<string>)
    ensures forall v :: v in env && (forall k :: 1 <= k <= |matched| ==> v != PartitionKey(k)) ==>
                        v in Numbered(env, matched) && Numbered(env, matched)[v] == env[v]
  {
    if matched != [] {
      NumberedOthers(env, matched[..|matched| - 1]);
    }
  }

  /** The partition loop: each node that mentions the device gets the next number. */
  method NumberPartitions(env: map<string, string>, device: string, nodes: seq<string>)
    returns (r: map<string, string>)
    ensures r == Numbered(env, Matching(device, nodes))
  {
    r := env;
    var pn: nat := 1;
    for i := 0 to |nodes|
      invariant pn == |Matching(device, nodes[..i])| + 1
      invariant r == Numbered(env, Matching(device, nodes[..i]))
    {
      assert nodes[..i + 1][..i] == nodes[..i];
      if exists j :: 0 <= j <= |nodes[i]| && Text.OccursAt(nodes[i], device, j) {
        r := r[PartitionKey(pn) := nodes[i]];
        pn := pn + 1;
      }
    }
    assert nodes[..|nodes|] == nodes;
  }

  // ---------------------------------------------------------------------
  // Script titles
  // ---------------------------------------------------------------------

  const TitleTag := "#TITLE# "

  /**
   * `re.search(r"#TITLE# (.+)", line)` tried from start `i` onwards: group 1
   * is the rest of the line after the tag, which must not be empty.
   */
  function TitleFrom(line: string, i: nat): (r: Option<string>)
    requires i <= |line|
    ensures r.Some? ==> r.value != [] && '\n' !in r.value
    decreases |line| - i
  {
    if i == |line| then None
    else if Text.OccursAt(line, TitleTag, i) && Text.LineEnd(line, i + |TitleTag|) > i + |TitleTag| then
      Some(line[i + |TitleTag|..Text.LineEnd(line, i + |TitleTag|)])
    else TitleFrom(line, i + 1)
  }

  /** The title a script line declares, if any. */
  function LineTitle(line: string): Option<string>
  {
    TitleFrom(line, 0)
  }

  /** The title a script is shown under: its first declared title, or its file name. */
  function Title(script: string, lines: seq<string>): string
  {
    if lines == [] then Paths.BaseName(script)
    else match LineTitle(lines[0])
      case Some(t) => t
      case None => Title(script, lines[1..])
  }

  /**
   * A script with a title line is shown under the title of its first title
   * line; a script without one under its file name.
   */
  lemma {:induction false} TitleSpec(script: string, lines: seq<string>)
    ensures (forall k :: 0 <= k < |lines| ==> LineTitle(lines[k]).None?) ==>
            Title(script, lines) == Paths.BaseName(script)
    ensures forall k :: 0 <= k < |lines| && LineTitle(lines[k]).Some? &&
                        (forall j :: 0 <= j < k ==> LineTitle(lines[j]).None?) ==>
                        Title(script, lines) == LineTitle(lines[k]).value
  {
    if lines != [] && LineTitle(lines[0]).None? {
      TitleSpec(script, lines[1..]);
      assert forall k :: 1 <= k < |lines| ==> lines[1..][k - 1] == lines[k];
    }
  }

  /**
   * A tag line declares the text after the tag up to the line break, when
   * nothing before the tag could start a tag.
   */
  lemma TitleOfTagLine(pre: string, t: string, rest: string)
    requires '#' !in pre
    requires t != [] && '\n' !in t
    requires rest == [] || rest[0] == '\n'
    ensures LineTitle(pre + TitleTag + t + rest) == Some(t)
  {
    var line := pre + TitleTag + t + rest;
    var b := |pre| + |TitleTag|;
    var e := b + |t|;
    forall k | 0 <= k < |pre|
      ensures line[k] != '#'
    {
      assert line[k] == pre[k];
    }
    TitleFromSkips(line, 0, |pre|);
    assert line[|pre|..b] == TitleTag;
    assert line[b..e] == t;
    forall k | b <= k < e
      ensures line[k] != '\n'
    {
      assert line[k] == t[k - b];
    }
    if rest != [] {
      assert line[e] == rest[0];
    }
    Text.LineEndAt(line, b, e);
  }

  /** Where no `#` occurs, the title search moves on. */
  lemma {:induction false} TitleFromSkips(line: string, i: nat, j: nat)
    requires i <= j <= |line|
    requires forall k :: i <= k < j ==> line[k] != '#'
    ensures TitleFrom(line, i) == TitleFrom(line, j)
    decreases j - i
  {
    if i < j {
      assert !Text.OccursAt(line, TitleTag, i) by {
        assert TitleTag[0] == '#';
      }
      TitleFromSkips(line, i + 1, j);
    }
  }

  /** Reading a script until the first title line. */
  method ScriptTitle(script: string, lines: seq<string>) returns (title: string)
    ensures title == Title(script, lines)
  {
    title := Paths.BaseName(script);
    var i := 0;
    while i < |lines|
      invariant 0 <= i <= |lines|
      invariant title == Paths.BaseName(script)
      invariant Title(script, lines) == Title(script, lines[i..])
    {
      assert lines[i..][1..] == lines[i + 1..];
      var m := TitleFrom(lines[i], 0);
      if m.Some? {
        title := m.value;
        return;
      }
      i := i + 1;
    }
  }

  // ---------------------------------------------------------------------
  // The write as a whole
  // ---------------------------------------------------------------------

  /** The titles shown for the post-install scripts, in order. */
  function Titles(scripts: seq<string>, bodies: seq<seq<string>>): (r: seq<string>)
    requires |bodies| == |scripts|
    ensures |r| == |scripts|
    ensures forall k :: 0 <= k < |r| ==> r[k] == Title(scripts[k], bodies[k])
  {
    if scripts == [] then []
    else Titles(scripts[..|scripts| - 1], bodies[..|bodies| - 1]) +
         [Title(scripts[|scripts| - 1], bodies[|bodies| - 1])]
  }

  /** How a call of `write_image` ends. */
  datatype Outcome =
    | Raised                      // the `img.gz` file is too short to seek into
    | Returned(ok: bool)

  /** The environment the post-install scripts run with. */
  function ScriptEnvironment(img: Utils.DiskImage, device: string, ask: (string, string) -> string,
                             nodes: seq<string>): map<string, string>
  {
    Numbered(Environment(img.directory, device, img.variables, ask), Matching(device, nodes))
  }

  /**
   * `write_image(device, image)`: `contents` is the image file, `ask` the
   * answers to the prompts, `ddCode` `dd`'s return code, `nodes` the
   * partition nodes listed after the write and `bodies` the lines of each
   * post-install script. Returns how the call ends, the environment the
   * scripts run with and the title shown for each script.
   */
  method Write(img: Utils.DiskImage, contents: seq<byte>, device: string,
               ask: (string, string) -> string, ddCode: int, nodes: seq<string>,
               bodies: seq<seq<string>>)
    returns (outcome: Outcome, env: map<string, string>, titles: seq<string>)
    requires |bodies| == |img.post|
    ensures outcome == Raised <==> ImageSize(img.fileFormat, contents) == TooShort
    ensures outcome == Returned(true) <==>
            ImageSize(img.fileFormat, contents).Known? && ddCode == 0
    ensures outcome == Returned(true) && img.post != [] ==>
            env == ScriptEnvironment(img, device, ask, nodes) &&
            titles == Titles(img.post, bodies)
    ensures outcome == Returned(true) && img.post == [] ==>
            env == Environment(img.directory, device, img.variables, ask) && titles == []
  {
    env := map[];
    titles := [];
    var size := ImageSize(img.fileFormat, contents);
    if size == TooShort {
      return Raised, env, titles;
    }
    if size == Unsupported {
      return Returned(false), env, titles;
    }
    env := GatherVariables(img.directory, device, img.variables, ask);
    if ddCode != 0 {
      return Returned(false), env, titles;
    }
    if |img.post| > 0 {
      env := NumberPartitions(env, device, nodes);
      for k := 0 to |img.post|
        invariant titles == Titles(img.post[..k], bodies[..k])
      {
        var title := ScriptTitle(img.post[k], bodies[k]);
        assert img.post[..k + 1][..k] == img.post[..k];
        assert bodies[..k + 1][..k] == bodies[..k];
        titles := titles + [title];
      }
      assert img.post[..|img.post|] == img.post;
      assert bodies[..|bodies|] == bodies;
    }
    outcome := Returned(true);
  }
}
