/** `flrn::progress_bar`: the progress bar whose bounds and counter are a signed `int`,
    so that `min` may be negative. Signed overflow is undefined behaviour in C++, so the
    operations that could overflow require that they do not. */
module Flrn {

  import opened Ints
  import opened Errors
  import opened Layout

  /** A copy of every field the model keeps (the construction timestamp is not modelled). */
  datatype Snapshot = Snapshot(
    min: int32, max: int32, current: int32, width: usize, autoInc: bool, showTime: bool)

  class ProgressBar {
    const min: int32
    const max: int32
    var current: int32
    /** Share of the terminal's columns the line may use, in percent. */
    const width: usize
    /** Never reassigned after construction. */
    const autoInc: bool
    var showTime: bool

    /** What construction establishes and every operation keeps. */
    ghost predicate Valid()
      reads this
    {
      min < max && min <= current <= max && 0 < width
    }

    function State(): Snapshot
      reads this
    {
      Snapshot(min, max, current, width, autoInc, showTime)
    }

    /** The constructor when it does not throw: the counter starts at `min`. */
    constructor (min: int32, max: int32, width: usize, autoInc: bool, showTime: bool)
      requires ConstructorError(min as int, max as int, width as int) == None
      ensures Valid()
      ensures State() == Snapshot(min, max, min, width, autoInc, showTime)
    {
      this.min := min;
      this.max := max;
      this.current := min;
      this.width := width;
      this.autoInc := autoInc;
      this.showTime := showTime;
    }

    /** The implicit copy constructor, used when a postfix operator returns by value. */
    constructor Copy(other: ProgressBar)
      requires other.Valid()
      ensures Valid() && State() == other.State()
    {
      min := other.min;
      max := other.max;
      current := other.current;
      width := other.width;
      autoInc := other.autoInc;
      showTime := other.showTime;
    }

    /** The constructor with its two exceptions: `range_error` when `max <= min`, then
        `invalid_argument` when `width == 0`. Negative bounds are accepted. */
    static method Create(min: int32, max: int32, width: usize, autoInc: bool, showTime: bool)
      returns (r: Result<ProgressBar, CtorError>)
      ensures r.Failure? <==> max <= min || width == 0
      ensures r.Failure? ==> ConstructorError(min as int, max as int, width as int) == Some(r.error)
      ensures r.Success? ==> fresh(r.value) && r.value.Valid()
      ensures r.Success? ==> r.value.State() == Snapshot(min, max, min, width, autoInc, showTime)
    {
      var e := ConstructorError(min as int, max as int, width as int);
      if e.Some? {
        return Failure(e.value);
      }
      var pb := new ProgressBar(min, max, width, autoInc, showTime);
      return Success(pb);
    }

    /** `size()`: the number of steps from `min` to `max`, whatever the counter. The
        subtraction is done in `int`, so the range must fit in one. */
    function Size(): (n: int32)
      reads this
      requires Valid()
      requires max as int - min as int <= INT32_MAX
      ensures 0 < n
      ensures min as int + n as int == max as int
    {
      max - min
    }

    /** `clamp`: saturates a value into `[min, max]`. */
    function Clamp(input: int32): (r: int32)
      reads this
      requires min <= max
      ensures min <= r <= max
      ensures min <= input <= max ==> r == input
      ensures input < min ==> r == min
      ensures max < input ==> r == max
    {
      if input < min then min
      else if input > max then max
      else input
    }

    /** Prefix `++`: one step up unless the counter is at `max`; returns the bar itself. */
    method Increment() returns (self: ProgressBar)
      requires Valid()
      modifies this
      ensures Valid() && self == this
      ensures State() == old(State()).(
        current := if old(current) < max then old(current) + 1 else old(current))
    {
      if current < max {
        current := current + 1;
      }
      return this;
    }

    /** Postfix `++`: like prefix `++`, but returns a copy taken before the change. */
    method PostIncrement() returns (copy: ProgressBar)
      requires Valid()
      modifies this
      ensures Valid() && fresh(copy) && copy.Valid()
      ensures copy.State() == old(State())
      ensures State() == old(State()).(
        current := if old(current) < max then old(current) + 1 else old(current))
    {
      if current < max {
        copy := new ProgressBar.Copy(this);
        current := current + 1;
        return;
      }
      copy := new ProgressBar.Copy(this);
    }

    /** Prefix `--`: one step down unless the counter is at `min`; returns the bar itself. */
    method Decrement() returns (self: ProgressBar)
      requires Valid()
      modifies this
      ensures Valid() && self == this
      ensures State() == old(State()).(
        current := if min < old(current) then old(current) - 1 else old(current))
    {
      if current > min {
        current := current - 1;
      }
      return this;
    }

    /** Postfix `--`: like prefix `--`, but returns a copy taken before the change. */
    method PostDecrement() returns (copy: ProgressBar)
      requires Valid()
      modifies this
      ensures Valid() && fresh(copy) && copy.Valid()
      ensures copy.State() == old(State())
      ensures State() == old(State()).(
        current := if min < old(current) then old(current) - 1 else old(current))
    {
      if current > min {
        copy := new ProgressBar.Copy(this);
        current := current - 1;
        return;
      }
      copy := new ProgressBar.Copy(this);
    }

    /** `step(steps)`: the counter becomes the clamped sum; `steps` may be negative. */
    method Step(steps: int32)
      requires Valid()
      requires INT32_MIN <= current as int + steps as int <= INT32_MAX
      modifies this
      ensures Valid()
      ensures State() == old(State()).(current := old(Clamp(current + steps)))
    {
      current := Clamp(current + steps);
    }

    /** `set(value)`: the counter becomes the clamped value. */
    method Set(value: int32)
      requires Valid()
      modifies this
      ensures Valid()
      ensures State() == old(State()).(current := Clamp(value))
    {
      current := Clamp(value);
    }

    /** `disp()`, with the terminal's column count and the formatted elapsed-time suffix
        passed in. Steps once when auto-increment is on, clears `showTime` for good on a
        narrow line, and returns the frame followed by the suffix while `showTime` holds. */
    method Disp(termWidth: nat, timeSuffix: string) returns (line: string)
      requires Valid()
      requires autoInc ==> current as int < INT32_MAX
      requires max as int - min as int <= INT32_MAX
      requires MISC_SYMBOLS_LENGTH <= LineLength(termWidth, width as nat)
      modifies this
      ensures Valid()
      ensures State() == old(State()).(
        current := if autoInc then old(Clamp(current + 1)) else old(current),
        showTime := KeepsTime(old(showTime), LineLength(termWidth, width as nat)))
      ensures line == Frame((current - min) as nat, (max - min) as nat,
                            BarLength(LineLength(termWidth, width as nat)))
                      + (if showTime then timeSuffix else "")
    {
      if autoInc {
        Step(1);
      }
      var lineLength := LineLength(termWidth, width as nat);
      ghost var fullLength := lineLength;
      if lineLength < MIN_LINE_LENGTH {
        showTime := false;
      } else {
        lineLength := lineLength - TIME_OUTPUT_LENGTH;
      }
      var barLength := lineLength - MISC_SYMBOLS_LENGTH;
      assert barLength == BarLength(fullLength);
      line := RenderFrame((current - min) as nat, (max - min) as nat, barLength);
      if showTime {
        line := line + timeSuffix;
      }
    }
  }

  /** Away from `max`, postfix `++` followed by prefix `--` restores the bar, and the copy
      the first returns equals the restored state. */
  method IncrementThenDecrement(pb: ProgressBar) returns (copy: ProgressBar)
    requires pb.Valid() && pb.current < pb.max
    modifies pb
    ensures pb.Valid() && pb.State() == old(pb.State())
    ensures copy.State() == pb.State()
  {
    copy := pb.PostIncrement();
    var self := pb.Decrement();
  }

  /** Away from `min`, postfix `--` followed by prefix `++` restores the bar. */
  method DecrementThenIncrement(pb: ProgressBar) returns (copy: ProgressBar)
    requires pb.Valid() && pb.min < pb.current
    modifies pb
    ensures pb.Valid() && pb.State() == old(pb.State())
    ensures copy.State() == pb.State()
  {
    copy := pb.PostDecrement();
    var self := pb.Increment();
  }

  /** The clamp picks the value in `[min, max]` nearest to its input. */
  lemma ClampIsNearest(pb: ProgressBar, input: int32, y: int32)
    requires pb.min <= y <= pb.max
    ensures Distance(pb.Clamp(input), input) <= Distance(y, input)
  {
  }

  function Distance(a: int32, b: int32): nat {
    if a <= b then b as int - a as int else a as int - b as int
  }

  /** A step of either sign lands on the sum, or on the bound it overshoots. */
  lemma StepSaturates(pb: ProgressBar, steps: int32)
    requires pb.Valid()
    requires INT32_MIN <= pb.current as int + steps as int <= INT32_MAX
    ensures var sum := pb.current as int + steps as int;
            pb.Clamp(pb.current + steps) as int
            == if sum < pb.min as int then pb.min as int
               else if pb.max as int < sum then pb.max as int
               else sum
  {
  }

  /** Two renders of a complete auto-incrementing bar, each given the elapsed-time text the
      clock yields for it: the counter stays at `max`, both lines begin with the same full
      frame at 100%, and without the time suffix the two lines are equal. */
  method RenderAfterCompletion(pb: ProgressBar, termWidth: nat, suffix1: string, suffix2: string)
    returns (first: string, second: string)
    requires pb.Valid() && pb.autoInc && pb.current == pb.max
    requires pb.max as int < INT32_MAX
    requires pb.max as int - pb.min as int <= INT32_MAX
    requires MISC_SYMBOLS_LENGTH <= LineLength(termWidth, pb.width as nat)
    modifies pb
    ensures pb.Valid() && pb.current == pb.max
    ensures var full := "[" + Repeat('-', BarLength(LineLength(termWidth, pb.width as nat))) + ">] 100%";
            first == full + (if pb.showTime then suffix1 else "")
            && second == full + (if pb.showTime then suffix2 else "")
    ensures !pb.showTime ==> second == first
  {
    first := pb.Disp(termWidth, suffix1);
    second := pb.Disp(termWidth, suffix2);
    CompletedFrame((pb.max - pb.min) as nat, BarLength(LineLength(termWidth, pb.width as nat)));
  }

  /** The demo driver: a bar over `[-13, 156]` at 80% of the terminal, auto-incrementing
      and showing time, rendered once per element of a vector of `size()` elements and
      once more. `suffixes[k]` is the elapsed-time text the clock yields for render `k`.
      Every render but the last advances the counter by one; the last two lines begin
      with the same complete frame. */
  method Demo(termWidth: nat, suffixes: seq<string>) returns (lines: seq<string>)
    requires |suffixes| == 170
    requires MISC_SYMBOLS_LENGTH <= LineLength(termWidth, 80)
    ensures |lines| == 170
    ensures forall k :: 0 <= k < 169 ==>
              lines[k] == Frame(k + 1, 169, BarLength(LineLength(termWidth, 80)))
                          + (if KeepsTime(true, LineLength(termWidth, 80)) then suffixes[k] else "")
    ensures var full := "[" + Repeat('-', BarLength(LineLength(termWidth, 80))) + ">] 100%";
            var keep := KeepsTime(true, LineLength(termWidth, 80));
            lines[168] == full + (if keep then suffixes[168] else "")
            && lines[169] == full + (if keep then suffixes[169] else "")
  {
    var pb := new ProgressBar(-13, 156, 80, true, true);
    var n := pb.Size();
    ghost var barLength := BarLength(LineLength(termWidth, 80));
    ghost var keep := KeepsTime(true, LineLength(termWidth, 80));
    lines := [];
    var i := 0;
    while i < n
      invariant 0 <= i <= n == 169
      invariant pb.Valid() && pb.min == -13 && pb.max == 156 && pb.width == 80 && pb.autoInc
      invariant pb.current as int == -13 + i as int
      invariant pb.showTime == (i == 0 || keep)
      invariant |lines| == i as int
      invariant forall k :: 0 <= k < i as int ==>
                  lines[k] == Frame(k + 1, 169, barLength) + (if keep then suffixes[k] else "")
    {
      var line := pb.Disp(termWidth, suffixes[i]);
      lines := lines + [line];
      i := i + 1;
    }
    var last := pb.Disp(termWidth, suffixes[169]);
    lines := lines + [last];
    CompletedFrame(169, barLength);
  }
}
