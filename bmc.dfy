/** `bmc::progress_bar`: the progress bar whose bounds and counter are `std::size_t`. */
module Bmc {

  import opened Ints
  import opened Errors
  import opened Layout

  /** A copy of every field the model keeps (the construction timestamp is not modelled). */
  datatype Snapshot = Snapshot(
    min: usize, max: usize, current: usize, width: usize, autoInc: bool, showTime: bool)

  class ProgressBar {
    const min: usize
    const max: usize
    var current: usize
    /** Share of the terminal's columns the line may use, in percent. */
    const width: usize
    /** Never reassigned after construction. */
    const autoInc: bool
    var showTime: bool

    /** What construction establishes and every operation keeps. */
    ghost predicate Valid()
      reads this
    {
      min < max && min <= current <= max && 0 < width
    }

    function State(): Snapshot
      reads this
    {
      Snapshot(min, max, current, width, autoInc, showTime)
    }

    /** The constructor when it does not throw: the counter starts at `min`. */
    constructor (min: usize, max: usize, width: usize, autoInc: bool, showTime: bool)
      requires ConstructorError(min as int, max as int, width as int) == None
      ensures Valid()
      ensures State() == Snapshot(min, max, min, width, autoInc, showTime)
    {
      this.min := min;
      this.max := max;
      this.current := min;
      this.width := width;
      this.autoInc := autoInc;
      this.showTime := showTime;
    }

    /** The implicit copy constructor, used when a postfix operator returns by value. */
    constructor Copy(other: ProgressBar)
      requires other.Valid()
      ensures Valid() && State() == other.State()
    {
      min := other.min;
      max := other.max;
      current := other.current;
      width := other.width;
      autoInc := other.autoInc;
      showTime := other.showTime;
    }

    /** The constructor with its two exceptions: `range_error` when `max <= min`, then
        `invalid_argument` when `width == 0`. */
    static method Create(min: usize, max: usize, width: usize, autoInc: bool, showTime: bool)
      returns (r: Result<ProgressBar, CtorError>)
      ensures r.Failure? <==> max <= min || width == 0
      ensures r.Failure? ==> ConstructorError(min as int, max as int, width as int) == Some(r.error)
      ensures r.Success? ==> fresh(r.value) && r.value.Valid()
      ensures r.Success? ==> r.value.State() == Snapshot(min, max, min, width, autoInc, showTime)
    {
      var e := ConstructorError(min as int, max as int, width as int);
      if e.Some? {
        return Failure(e.value);
      }
      var pb := new ProgressBar(min, max, width, autoInc, showTime);
      return Success(pb);
    }

    /** `size()`: the number of steps from `min` to `max`, whatever the counter. */
    function Size(): (n: usize)
      reads this
      requires Valid()
      ensures 0 < n
      ensures min as int + n as int == max as int
    {
      max - min
    }

    /** `clamp`: saturates a value into `[min, max]`. */
    function Clamp(input: usize): (r: usize)
      reads this
      requires min <= max
      ensures min <= r <= max
      ensures min <= input <= max ==> r == input
      ensures input < min ==> r == min
      ensures max < input ==> r == max
    {
      if input < min then min
      else if input > max then max
      else input
    }

    /** Prefix `++`: one step up unless the counter is at `max`; returns the bar itself. */
    method Increment() returns (self: ProgressBar)
      requires Valid()
      modifies this
      ensures Valid() && self == this
      ensures State() == old(State()).(
        current := if old(current) < max then old(current) + 1 else old(current))
    {
      if current < max {
        current := current + 1;
      }
      return this;
    }

    /** Postfix `++`: like prefix `++`, but returns a copy taken before the change. */
    method PostIncrement() returns (copy: ProgressBar)
      requires Valid()
      modifies this
      ensures Valid() && fresh(copy) && copy.Valid()
      ensures copy.State() == old(State())
      ensures State() == old(State()).(
        current := if old(current) < max then old(current) + 1 else old(current))
    {
      if current < max {
        copy := new ProgressBar.Copy(this);
        current := current + 1;
        return;
      }
      copy := new ProgressBar.Copy(this);
    }

    /** Prefix `--`: one step down unless the counter is at `min`; returns the bar itself. */
    method Decrement() returns (self: ProgressBar)
      requires Valid()
      modifies this
      ensures Valid() && self == this
      ensures State() == old(State()).(
        current := if min < old(current) then old(current) - 1 else old(current))
    {
      if current > min {
        current := current - 1;
      }
      return this;
    }

    /** Postfix `--`: like prefix `--`, but returns a copy taken before the change. */
    method PostDecrement() returns (copy: ProgressBar)
      requires Valid()
      modifies this
      ensures Valid() && fresh(copy) && copy.Valid()
      ensures copy.State() == old(State())
      ensures State() == old(State()).(
        current := if min < old(current) then old(current) - 1 else old(current))
    {
      if current > min {
        copy := new ProgressBar.Copy(this);
        current := current - 1;
        return;
      }
      copy := new ProgressBar.Copy(this);
    }

    /** `step(steps)`: the counter becomes the clamped unsigned sum, which wraps past
        `SIZE_LIMIT` before it is clamped. */
    method Step(steps: usize)
      requires Valid()
      modifies this
      ensures Valid()
      ensures State() == old(State()).(current := old(Clamp(WrapAdd(current, steps))))
    {
      current := Clamp(WrapAdd(current, steps));
    }

    /** `set(value)`: the counter becomes the clamped value. */
    method Set(value: usize)
      requires Valid()
      modifies this
      ensures Valid()
      ensures State() == old(State()).(current := Clamp(value))
    {
      current := Clamp(value);
    }

    /** `disp()`, with the terminal's column count and the formatted elapsed-time suffix
        passed in. Steps once when auto-increment is on, clears `showTime` for good on a
        narrow line, and returns the frame followed by the suffix while `showTime` holds. */
    method Disp(termWidth: nat, timeSuffix: string) returns (line: string)
      requires Valid()
      requires MISC_SYMBOLS_LENGTH <= LineLength(termWidth, width as nat)
      modifies this
      ensures Valid()
      ensures State() == old(State()).(
        current := if autoInc then old(Clamp(WrapAdd(current, 1))) else old(current),
        showTime := KeepsTime(old(showTime), LineLength(termWidth, width as nat)))
      ensures line == Frame((current - min) as nat, (max - min) as nat,
                            BarLength(LineLength(termWidth, width as nat)))
                      + (if showTime then timeSuffix else "")
    {
      if autoInc {
        Step(1);
      }
      var lineLength := LineLength(termWidth, width as nat);
      ghost var fullLength := lineLength;
      if lineLength < MIN_LINE_LENGTH {
        showTime := false;
      } else {
        lineLength := lineLength - TIME_OUTPUT_LENGTH;
      }
      var barLength := lineLength - MISC_SYMBOLS_LENGTH;
      assert barLength == BarLength(fullLength);
      line := RenderFrame((current - min) as nat, (max - min) as nat, barLength);
      if showTime {
        line := line + timeSuffix;
      }
    }
  }

  /** Away from `max`, postfix `++` followed by prefix `--` restores the bar, and the copy
      the first returns equals the restored state. */
  method IncrementThenDecrement(pb: ProgressBar) returns (copy: ProgressBar)
    requires pb.Valid() && pb.current < pb.max
    modifies pb
    ensures pb.Valid() && pb.State() == old(pb.State())
    ensures copy.State() == pb.State()
  {
    copy := pb.PostIncrement();
    var self := pb.Decrement();
  }

  /** Away from `min`, postfix `--` followed by prefix `++` restores the bar. */
  method DecrementThenIncrement(pb: ProgressBar) returns (copy: ProgressBar)
    requires pb.Valid() && pb.min < pb.current
    modifies pb
    ensures pb.Valid() && pb.State() == old(pb.State())
    ensures copy.State() == pb.State()
  {
    copy := pb.PostDecrement();
    var self := pb.Increment();
  }

  /** The clamp picks the value in `[min, max]` nearest to its input. */
  lemma ClampIsNearest(pb: ProgressBar, input: usize, y: usize)
    requires pb.min <= y <= pb.max
    ensures Distance(pb.Clamp(input), input) <= Distance(y, input)
  {
  }

  function Distance(a: usize, b: usize): nat {
    if a <= b then (b - a) as nat else (a - b) as nat
  }

  /** Without wrap-around, `step` saturates at `max`. */
  lemma StepSaturates(pb: ProgressBar, steps: usize)
    requires pb.Valid()
    requires pb.current as int + steps as int < SIZE_LIMIT
    ensures pb.Clamp(WrapAdd(pb.current, steps)) as int
         == if pb.current as int + steps as int <= pb.max as int
            then pb.current as int + steps as int else pb.max as int
  {
  }

  /** With `max` at the largest `std::size_t`, a step from a complete bar wraps to zero
      and the clamp sends the counter back to `min`. */
  lemma StepWrapsAtLargestMax(pb: ProgressBar)
    requires pb.Valid()
    requires pb.max as int == SIZE_LIMIT - 1 && pb.current == pb.max
    ensures pb.Clamp(WrapAdd(pb.current, 1)) == pb.min
  {
  }

  /** Two renders of a complete auto-incrementing bar, each given the elapsed-time text the
      clock yields for it: the counter stays at `max`, both lines begin with the same full
      frame at 100%, and without the time suffix the two lines are equal. */
  method RenderAfterCompletion(pb: ProgressBar, termWidth: nat, suffix1: string, suffix2: string)
    returns (first: string, second: string)
    requires pb.Valid() && pb.autoInc && pb.current == pb.max
    requires pb.max as int < SIZE_LIMIT - 1
    requires MISC_SYMBOLS_LENGTH <= LineLength(termWidth, pb.width as nat)
    modifies pb
    ensures pb.Valid() && pb.current == pb.max
    ensures var full := "[" + Repeat('-', BarLength(LineLength(termWidth, pb.width as nat))) + ">] 100%";
            first == full + (if pb.showTime then suffix1 else "")
            && second == full + (if pb.showTime then suffix2 else "")
    ensures !pb.showTime ==> second == first
  {
    first := pb.Disp(termWidth, suffix1);
    second := pb.Disp(termWidth, suffix2);
    CompletedFrame((pb.max - pb.min) as nat, BarLength(LineLength(termWidth, pb.width as nat)));
  }

  /** A bar over `[0, 4]` at half of an 80-column terminal, auto-incrementing and without
      the time suffix, rendered five times: the counter reads 1, 2, 3, 4, 4 and the last
      two lines are the same complete frame. */
  method FiveRenders() returns (counters: seq<usize>, lines: seq<string>)
    ensures counters == [1, 2, 3, 4, 4]
    ensures |lines| == 5 && lines[4] == lines[3]
    ensures lines[3] == "[" + Repeat('-', 33) + ">] 100%"
  {
    var pb := new ProgressBar(0, 4, 50, true, false);
    assert LineLength(80, 50) == 40;
    counters, lines := [], [];
    var i := 0;
    while i < 5
      invariant 0 <= i <= 5
      invariant pb.Valid() && pb.State() == Snapshot(0, 4, if i < 4 then i as usize else 4, 50, true, false)
      invariant |counters| == |lines| == i
      invariant forall k :: 0 <= k < i ==> counters[k] == if k < 4 then (k + 1) as usize else 4
      invariant 4 <= i ==> lines[3] == Frame(4, 4, 33)
      invariant 5 <= i ==> lines[4] == Frame(4, 4, 33)
    {
      var line := pb.Disp(80, "");
      counters := counters + [pb.current];
      lines := lines + [line];
      i := i + 1;
    }
    CompletedFrame(4, 33);
  }
}
