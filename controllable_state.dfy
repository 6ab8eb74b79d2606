/**
 * A value cell that is either controlled by its owner (a `value` prop is
 * given) or keeps its own state, and decides when the `onChange` callback
 * fires (`useControllableState` and `useUncontrolledState`).
 *
 * A call of `onChange` is returned as `Some(v)`; `None` means no call.
 */
module ControllableStates {
  import opened Wrappers

  /** The argument of a state setter: a new value or an updater of the current one. */
  datatype Update<!T> = Replace(next: T) | Apply(f: T -> T)

  /** The value a setter argument stands for, given the value it updates. */
  function Resolve<T>(u: Update<T>, current: T): (r: T)
    ensures u.Replace? ==> r == u.next
    ensures u.Apply? ==> r == u.f(current)
  {
    match u
    case Replace(v) => v
    case Apply(f) => f(current)
  }

  class ControllableState<T(==)> {
    /** The uncontrolled state (`useState(defaultValue)`). */
    var internal: T
    /** The last value reported through `onChange` (`prevValueRef`). */
    var prevValue: T
    /** The `value` prop, as last synchronised into `contextRef`; `None` is `undefined`. */
    var controlled: Option<T>

    /** Both the state and the last reported value start at the default, so mounting reports nothing. */
    constructor(defaultValue: T, value: Option<T>)
      ensures internal == defaultValue && prevValue == defaultValue && controlled == value
    {
      internal := defaultValue;
      prevValue := defaultValue;
      controlled := value;
    }

    /** `isControlled`: a value prop is present. */
    predicate IsControlled()
      reads this
    {
      controlled.Some?
    }

    /** The exposed value: the prop when controlled, the own state otherwise. */
    function Value(): (r: T)
      reads this
      ensures IsControlled() ==> r == controlled.value
      ensures !IsControlled() ==> r == internal
    {
      if controlled.Some? then controlled.value else internal
    }

    /**
     * `setValue`: while controlled, the own state is left alone and
     * `onChange` fires exactly when the resolved value differs from the
     * prop; while uncontrolled, the resolved value is stored and nothing
     * fires yet (the commit effect reports it).
     */
    method SetValue(u: Update<T>) returns (notify: Option<T>)
      modifies this`internal
      ensures controlled.Some? ==>
        && internal == old(internal)
        && notify == (if Resolve(u, controlled.value) != controlled.value then Some(Resolve(u, controlled.value)) else None)
      ensures controlled.None? ==> internal == Resolve(u, old(internal)) && notify == None
    {
      if controlled.Some? {
        var resolved := Resolve(u, controlled.value);
        if resolved != controlled.value {
          notify := Some(resolved);
        } else {
          notify := None;
        }
      } else {
        internal := Resolve(u, internal);
        notify := None;
      }
    }

    /**
     * The effect that runs after the own state is committed: it reports a
     * value that differs from the last reported one, and remembers it.
     */
    method CommitEffect() returns (notify: Option<T>)
      modifies this`prevValue
      ensures notify == (if old(prevValue) != internal then Some(internal) else None)
      ensures prevValue == internal
    {
      if prevValue != internal {
        notify := Some(internal);
        prevValue := internal;
      } else {
        notify := None;
      }
    }

    /** The insertion effect that copies a new `value` prop into `contextRef`. */
    method Sync(value: Option<T>)
      modifies this`controlled
      ensures controlled == value
    {
      controlled := value;
    }
  }

  /** Mounting an uncontrolled cell and committing it reports nothing. */
  method MountReportsNothing<T(==)>(defaultValue: T) returns (notify: Option<T>)
    ensures notify == None
  {
    var cell := new ControllableState(defaultValue, None);
    notify := cell.CommitEffect();
  }

  /** A second commit without an intervening update reports nothing. */
  method CommitTwiceReportsOnce<T(==)>(cell: ControllableState<T>) returns (first: Option<T>, second: Option<T>)
    modifies cell`prevValue
    ensures first == (if old(cell.prevValue) != cell.internal then Some(cell.internal) else None)
    ensures second == None
  {
    first := cell.CommitEffect();
    second := cell.CommitEffect();
  }

  /**
   * An uncontrolled update followed by its commit reports the resolved
   * value exactly when it differs from the last reported one.
   */
  method UncontrolledRoundTrip<T(==)>(cell: ControllableState<T>, u: Update<T>) returns (notify: Option<T>)
    requires cell.controlled.None?
    modifies cell`internal, cell`prevValue
    ensures cell.internal == Resolve(u, old(cell.internal)) && cell.prevValue == cell.internal
    ensures notify == (if old(cell.prevValue) != cell.internal then Some(cell.internal) else None)
    ensures cell.Value() == Resolve(u, old(cell.internal))
  {
    var none := cell.SetValue(u);
    notify := cell.CommitEffect();
  }
}
