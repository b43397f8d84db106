/**
 * The stand-alone baker: up to eight images on the PiFace Digital, one LED
 * per image. The input port's value is decoded into its eight buttons;
 * S1 moves to the next image and S2 to the previous one, both wrapping.
 * The port values are inputs.
 */
module Baker {

  import Text

  /** `2**k`. */
  function Pow2(k: nat): (r: nat)
    ensures r >= 1
  {
    if k == 0 then 1 else 2 * Pow2(k - 1)
  }

  /**
   * The entries `find_buttons` appends for the weights `2**(j-1)` down to
   * `2**0`: 1 when the weight fits in what is left of `n`, which it then
   * takes away, and 0 otherwise.
   */
  function Greedy(n: int, j: nat): (r: seq<int>)
    ensures |r| == j
    ensures forall k :: 0 <= k < j ==> r[k] == 0 || r[k] == 1
  {
    if j == 0 then []
    else if Pow2(j - 1) <= n then [1] + Greedy(n - Pow2(j - 1), j - 1)
    else [0] + Greedy(n, j - 1)
  }

  /** `find_buttons(n)`: the greedy entries, reversed so that entry `i` goes with `2**i`. */
  function Buttons(n: int): (r: seq<int>)
    ensures |r| == 8
    ensures forall i :: 0 <= i < 8 ==> r[i] == 0 || r[i] == 1
  {
    var g := Greedy(n, 8);
    var r := Text.Reverse(g);
    forall i | 0 <= i < 8
      ensures r[i] == 0 || r[i] == 1
    {
      Text.ReverseAt(g, i);
    }
    r
  }

  /** `find_buttons(n)` as written: the loop over `range(7, -1, -1)`, then `reverse()`. */
  method FindButtons(n: int) returns (btns: seq<int>)
    ensures btns == Buttons(n)
  {
    var m := n;
    btns := [];
    var i := 7;
    while i >= 0
      invariant -1 <= i <= 7
      invariant btns + Greedy(m, i + 1) == Greedy(n, 8)
    {
      if Pow2(i) <= m {
        btns := btns + [1];
        m := m - Pow2(i);
      } else {
        btns := btns + [0];
      }
      i := i - 1;
    }
    assert btns + [] == btns;
    btns := Text.Reverse(btns);
  }

  /** Bit `i` of `n`: halve `i` times and take the remainder. */
  function Bit(n: nat, i: nat): nat
  {
    if i == 0 then n % 2 else Bit(n / 2, i - 1)
  }

  /** `sum(b[i] * 2**i)`, written in Horner form. */
  function Weighted(b: seq<int>): int
  {
    if b == [] then 0 else b[0] + 2 * Weighted(b[1..])
  }

  /** For `n` that fits in `j` bits, the greedy entries are those of `n / 2` followed by `n % 2`. */
  lemma {:induction false} GreedyHalves(n: int, j: nat)
    requires 1 <= j && 0 <= n < Pow2(j)
    ensures Greedy(n, j) == Greedy(n / 2, j - 1) + [n % 2]
  {
    if j == 1 {
      assert Greedy(n, 1) == [if 1 <= n then 1 else 0];
    } else {
      var p := Pow2(j - 2);
      assert Pow2(j - 1) == 2 * p;
      if 2 * p <= n {
        var rest := n - 2 * p;
        assert rest / 2 == n / 2 - p && rest % 2 == n % 2;
        GreedyHalves(rest, j - 1);
        var tail := Greedy(rest / 2, j - 2);
        assert Greedy(n, j) == [1] + (tail + [n % 2]);
        assert Greedy(n / 2, j - 1) == [1] + tail;
        assert [1] + (tail + [n % 2]) == [1] + tail + [n % 2];
      } else {
        assert n / 2 < p;
        GreedyHalves(n, j - 1);
        var tail := Greedy(n / 2, j - 2);
        assert Greedy(n, j) == [0] + (tail + [n % 2]);
        assert Greedy(n / 2, j - 1) == [0] + tail;
        assert [0] + (tail + [n % 2]) == [0] + tail + [n % 2];
      }
    }
  }

  /** Reversed, the greedy entries of `n` are its bits, least significant first. */
  lemma {:induction false} GreedyBits(n: int, j: nat)
    requires 0 <= n < Pow2(j)
    ensures forall i :: 0 <= i < j ==> Text.Reverse(Greedy(n, j))[i] == Bit(n, i)
    ensures Weighted(Text.Reverse(Greedy(n, j))) == n
  {
    if j > 0 {
      GreedyHalves(n, j);
      GreedyBits(n / 2, j - 1);
      var h := Text.Reverse(Greedy(n / 2, j - 1));
      Text.ReverseAppend(Greedy(n / 2, j - 1), [n % 2]);
      assert Text.Reverse(Greedy(n, j)) == [n % 2] + h;
      assert ([n % 2] + h)[1..] == h;
      forall i | 1 <= i < j
        ensures Text.Reverse(Greedy(n, j))[i] == Bit(n, i)
      {
        assert ([n % 2] + h)[i] == h[i - 1];
      }
    }
  }

  /**
   * For a port value `0 <= n <= 255`, entry `i` is bit `i` of `n` and the
   * entries weighted by `2**i` add up to `n`.
   */
  lemma ButtonsAreBits(n: int)
    requires 0 <= n <= 255
    ensures forall i :: 0 <= i < 8 ==> Buttons(n)[i] == Bit(n, i)
    ensures Weighted(Buttons(n)) == n
  {
    assert Pow2(8) == 256;
    GreedyBits(n, 8);
  }

  /** With at least `2**j - 1` to take from, every weight fits. */
  lemma {:induction false} GreedySaturates(n: int, j: nat)
    requires n >= Pow2(j) - 1
    ensures forall k :: 0 <= k < j ==> Greedy(n, j)[k] == 1
  {
    if j > 0 {
      GreedySaturates(n - Pow2(j - 1), j - 1);
    }
  }

  /** With nothing to take from, no weight fits. */
  lemma {:induction false} GreedyEmpty(n: int, j: nat)
    requires n <= 0
    ensures forall k :: 0 <= k < j ==> Greedy(n, j)[k] == 0
  {
    if j > 0 {
      GreedyEmpty(n, j - 1);
    }
  }

  /** Values of 255 and more press every button; values of 0 and less none. */
  lemma ButtonsSaturate(n: int)
    ensures n >= 255 ==> forall i :: 0 <= i < 8 ==> Buttons(n)[i] == 1
    ensures n <= 0 ==> forall i :: 0 <= i < 8 ==> Buttons(n)[i] == 0
  {
    forall i | 0 <= i < 8
      ensures Buttons(n)[i] == Greedy(n, 8)[7 - i]
    {
      Text.ReverseAt(Greedy(n, 8), i);
    }
    if n >= 255 {
      assert Pow2(8) == 256;
      GreedySaturates(n, 8);
    }
    if n <= 0 {
      GreedyEmpty(n, 8);
    }
  }

  // ---------------------------------------------------------------------
  // The selection loop
  // ---------------------------------------------------------------------

  /** S1 then S2 of one button event, applied to the image index. */
  function Navigate(image: int, count: int, buttons: seq<int>): int
    requires |buttons| == 8
  {
    var i1 := if buttons[0] != 0 then (if image + 1 == count then 0 else image + 1) else image;
    if buttons[1] != 0 then (if i1 - 1 == -1 then count - 1 else i1 - 1) else i1
  }

  /**
   * On an index in range, S1 alone moves to the next image and wraps to the
   * first, S2 alone moves to the previous one and wraps to the last, and
   * both together leave the index where it was; it stays in range.
   */
  lemma NavigateSpec(image: int, count: int, buttons: seq<int>)
    requires |buttons| == 8 && 0 <= image < count
    ensures 0 <= Navigate(image, count, buttons) < count
    ensures buttons[0] != 0 && buttons[1] == 0 ==> Navigate(image, count, buttons) == (image + 1) % count
    ensures buttons[0] == 0 && buttons[1] != 0 ==> Navigate(image, count, buttons) == (image - 1) % count
    ensures buttons[0] != 0 && buttons[1] != 0 ==> Navigate(image, count, buttons) == image
    ensures buttons[0] == 0 && buttons[1] == 0 ==> Navigate(image, count, buttons) == image
  {
    StepMod(image, count);
  }

  /** Moving one place forward or back modulo `count`, from an index in range. */
  lemma StepMod(image: int, count: int)
    requires 0 <= image < count
    ensures (image + 1) % count == if image + 1 == count then 0 else image + 1
    ensures (image - 1) % count == if image == 0 then count - 1 else image - 1
  {
    if image + 1 == count {
      assert (image + 1) % count == 0;
    }
    if image == 0 {
      assert (image - 1) % count == count - 1;
    }
  }

  /** How the baker starts: blinking for more than eight images, failing on none. */
  datatype Start = Blinking | IndexError | Selecting

  /** The images shown: the start, then the index after each button event. */
  method Run(count: nat, events: seq<int>) returns (start: Start, shown: seq<int>)
    ensures count > 8 ==> start == Blinking && shown == []
    ensures count == 0 ==> start == IndexError && shown == []
    ensures 1 <= count <= 8 ==>
      && start == Selecting
      && |shown| == |events| + 1 && shown[0] == 0
      && (forall k :: 0 <= k < |shown| ==> 0 <= shown[k] < count && Pow2(shown[k]) <= 128)
      && (forall k :: 0 <= k < |events| ==> shown[k + 1] == Navigate(shown[k], count, Buttons(events[k])))
  {
    if count > 8 {
      return Blinking, [];
    }
    if count == 0 {
      return IndexError, [];
    }
    var image := 0;
    shown := [image];
    for k := 0 to |events|
      invariant |shown| == k + 1 && shown[k] == image && shown[0] == 0
      invariant forall i :: 0 <= i <= k ==> 0 <= shown[i] < count
      invariant forall i :: 0 <= i < k ==> shown[i + 1] == Navigate(shown[i], count, Buttons(events[i]))
    {
      var buttons := FindButtons(events[k]);
      NavigateSpec(image, count, buttons);
      if buttons[0] != 0 {
        image := image + 1;
        if image == count {
          image := 0;
        }
      }
      if buttons[1] != 0 {
        image := image - 1;
        if image == -1 {
          image := count - 1;
        }
      }
      shown := shown + [image];
    }
    forall k | 0 <= k < |shown|
      ensures Pow2(shown[k]) <= 128
    {
      Pow2Monotone(shown[k], 7);
    }
    start := Selecting;
  }

  /** `2**i <= 2**j` for `i <= j`. */
  lemma {:induction false} Pow2Monotone(i: nat, j: nat)
    requires i <= j
    ensures Pow2(i) <= Pow2(j)
    decreases j
  {
    if i < j {
      Pow2Monotone(i, j - 1);
    }
  }
}
