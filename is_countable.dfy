/** The IsCountable validator: an element count checked against optional count, min and max options. */
module IsCountable {
  import opened Wrappers

  /** The failure keys `isValid` can record. */
  datatype ErrorKey = NotCountable | NotEquals | GreaterThan | LessThan {
    /** The key string of the PHP constant. */
    function Name(): string {
      match this
      case NotCountable => "notCountable"
      case NotEquals => "notEquals"
      case GreaterThan => "greaterThan"
      case LessThan => "lessThan"
    }
  }

  /** Distinct keys have distinct key strings, so the recorded keys are the key set of the messages. */
  lemma NamesIdentifyKeys()
    ensures forall a: ErrorKey, b: ErrorKey :: a.Name() == b.Name() ==> a == b
  {
  }

  /** The message of the RuntimeException raised for a value that cannot be counted. */
  const NotCountableMessage := "The input must be an array or an instance of \\Countable"

  /**
   * A value handed to `isValid`: an array or Countable, with the int its
   * `count()` gives (a Countable's `count` method may return a negative one),
   * or anything else.
   */
  datatype Input = Counted(size: int) | Uncountable

  /** The `$options` record; `None` is `null`, the default of each option. */
  datatype Options = Options(count: Option<int>, min: Option<int>, max: Option<int>)

  const Defaults := Options(None, None, None)

  /** What `isValid` does: returns true, records one key and returns false, or throws. */
  datatype Outcome = Pass | Fail(key: ErrorKey) | Throw(message: string)

  /** The element count satisfies whichever of the inclusive bounds are set. */
  predicate WithinBounds(opts: Options, n: int) {
    (opts.min.None? || opts.min.value <= n) && (opts.max.None? || n <= opts.max.value)
  }

  /**
   * The decision `isValid` makes.  A value that cannot be counted throws.
   * An exact `count` overrides `min` and `max`; without it, exceeding `max`
   * is reported before falling short of `min`.
   */
  function Evaluate(opts: Options, value: Input): (o: Outcome)
    ensures o.Throw? <==> value.Uncountable?
    ensures o.Throw? ==> o.message == NotCountableMessage
    ensures o.Fail? ==> o.key != NotCountable
    ensures value.Counted? && opts.count.Some? ==>
              (o == Pass <==> value.size == opts.count.value) && (o.Fail? <==> o == Fail(NotEquals))
    ensures value.Counted? && opts.count.None? ==> (o == Pass <==> WithinBounds(opts, value.size))
    ensures o == Fail(GreaterThan) <==>
              value.Counted? && opts.count.None? && opts.max.Some? && value.size > opts.max.value
    ensures o == Fail(LessThan) <==>
              value.Counted? && opts.count.None? && opts.min.Some? && value.size < opts.min.value &&
              (opts.max.None? || value.size <= opts.max.value)
  {
    match value
    case Uncountable => Throw(NotCountableMessage)
    case Counted(n) =>
      if opts.count.Some? then
        if n != opts.count.value then Fail(NotEquals) else Pass
      else if opts.max.Some? && n > opts.max.value then Fail(GreaterThan)
      else if opts.min.Some? && n < opts.min.value then Fail(LessThan)
      else Pass
  }

  /** With an exact count set, min and max have no effect on the outcome. */
  lemma CountOverridesBounds(opts: Options, min: Option<int>, max: Option<int>, value: Input)
    requires opts.count.Some?
    ensures Evaluate(opts.(min := min, max := max), value) == Evaluate(opts, value)
  {
  }

  /** With no option set, every countable value passes. */
  lemma DefaultsAcceptEverything(value: Input)
    requires value.Counted?
    ensures Evaluate(Defaults, value) == Pass
  {
  }

  /** The error keys one outcome records: exactly one for a failure, none otherwise. */
  function Recorded(o: Outcome): (keys: set<ErrorKey>)
    ensures |keys| == if o.Fail? then 1 else 0
  {
    if o.Fail? then {o.key} else {}
  }

  /** The exception `isValid` raises. */
  datatype RuntimeException = RuntimeException(message: string)

  class IsCountable {
    var options: Options
    /** The error keys recorded so far, the key set of the validator's messages. */
    var errors: set<ErrorKey>

    constructor ()
      ensures options == Defaults && errors == {}
    {
      options := Defaults;
      errors := {};
    }

    function GetCount(): Option<int>
      reads this
    {
      options.count
    }

    function GetMin(): Option<int>
      reads this
    {
      options.min
    }

    function GetMax(): Option<int>
      reads this
    {
      options.max
    }

    /** `setCount`: replaces the count option only; returns the validator itself. */
    method SetCount(count: Option<int>) returns (self: IsCountable)
      modifies this
      ensures self == this
      ensures GetCount() == count && GetMin() == old(GetMin()) && GetMax() == old(GetMax())
      ensures errors == old(errors)
    {
      options := options.(count := count);
      self := this;
    }

    /** `setMin`: replaces the min option only; returns the validator itself. */
    method SetMin(min: Option<int>) returns (self: IsCountable)
      modifies this
      ensures self == this
      ensures GetMin() == min && GetCount() == old(GetCount()) && GetMax() == old(GetMax())
      ensures errors == old(errors)
    {
      options := options.(min := min);
      self := this;
    }

    /** `setMax`: replaces the max option only; returns the validator itself. */
    method SetMax(max: Option<int>) returns (self: IsCountable)
      modifies this
      ensures self == this
      ensures GetMax() == max && GetCount() == old(GetCount()) && GetMin() == old(GetMin())
      ensures errors == old(errors)
    {
      options := options.(max := max);
      self := this;
    }

    /**
     * `isValid`: returns whether the element count satisfies the options,
     * recording the failure's key, or throws for a value that cannot be counted.
     */
    method IsValid(value: Input) returns (r: Result<bool, RuntimeException>)
      modifies this`errors
      ensures r.Failure? <==> Evaluate(options, value).Throw?
      ensures r.Failure? ==> r.error == RuntimeException(NotCountableMessage)
      ensures r.Success? ==> (r.value <==> Evaluate(options, value) == Pass)
      ensures errors == old(errors) + Recorded(Evaluate(options, value))
    {
      if value.Uncountable? {
        return Failure(RuntimeException(NotCountableMessage));
      }
      var count := value.size;
      if options.count.Some? {
        if count != options.count.value {
          errors := errors + {NotEquals};
          return Success(false);
        }
        return Success(true);
      }
      if options.max.Some? && count > options.max.value {
        errors := errors + {GreaterThan};
        return Success(false);
      }
      if options.min.Some? && count < options.min.value {
        errors := errors + {LessThan};
        return Success(false);
      }
      return Success(true);
    }
  }

  /**
   * A fresh validator whose options are set through the setters records
   * exactly one key when `isValid` fails and none when it passes.
   */
  method ValidateWithOptions(opts: Options, value: Input) returns (r: Result<bool, RuntimeException>, errors: set<ErrorKey>)
    ensures r.Failure? <==> value.Uncountable?
    ensures r.Success? ==> (r.value <==> Evaluate(opts, value) == Pass)
    ensures r == Success(false) ==> |errors| == 1
    ensures r != Success(false) ==> errors == {}
  {
    var v := new IsCountable();
    var _ := v.SetCount(opts.count);
    var _ := v.SetMin(opts.min);
    var _ := v.SetMax(opts.max);
    assert v.options == opts;
    r := v.IsValid(value);
    errors := v.errors;
  }
}
