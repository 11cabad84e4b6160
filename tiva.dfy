/** Tiny validation: a value that can report its own validity is turned,
    by a single checked entry point, into a `Validated` wrapper whose very
    existence shows that the check passed when the wrapper was built.

    Rust's `Validate` trait (an associated `Error` type and a required
    `validity(&self)`) becomes a type parameter `E` and a function value
    `validity: V -> Validity<E>` handed to `Validate`. In Rust the
    check is fixed by the type `V`; here it is chosen by the caller and
    recorded in each wrapper, so a consumer that relies on a particular check
    must require the wrapper's `validity` to be that check. */
module Tiva {

  /** The closed outcome of a validity check: valid, or invalid for a reason. */
  datatype Validity<Reason> = Valid | InValid(reason: Reason)

  /** Rust's `Result`, as returned by `validate`. */
  datatype Result<T, E> = Ok(value: T) | Err(error: E)

  /** The proof-of-validity wrapper.  Its one real field is `value`.
      The ghost part records what the Rust type system guarantees:
      `validity` is the check the value passed, `history` every value the
      wrapper has held, oldest first, so `history[0]` is the value that was
      checked and the last entry is the value a read sees. */
  class Validated<V, E> {
    var value: V
    ghost const validity: V -> Validity<E>
    ghost var history: seq<V>

    /** The wrapper invariant: the value it was built from passed the check,
        and the stored value is the latest one written. Nothing requires the
        CURRENT value to pass: mutation is never re-checked. */
    ghost predicate Invariant()
      reads this
    {
      |history| > 0 &&
      validity(history[0]) == Valid &&
      value == history[|history| - 1]
    }

    /** The value this wrapper was built from, the one that passed the check. */
    ghost function Checked(): V
      reads this
      requires Invariant()
    {
      history[0]
    }

    /** Building a wrapper requires a proof that the value passes the check
        recorded in it. The crate-private field plays this part in Rust,
        with `validate` as the one place that builds a wrapper. */
    constructor (v: V, ghost check: V -> Validity<E>)
      requires check(v) == Valid
      ensures Invariant()
      ensures value == v && validity == check && history == [v]
    {
      value := v;
      validity := check;
      history := [v];
    }

    /** Read access (`deref`): a pure read of the wrapped value, which is the
        value most recently written, or the checked value if nothing was
        written since construction. */
    function Deref(): (r: V)
      reads this
      requires Invariant()
      ensures r == history[|history| - 1]
      ensures |history| == 1 ==> r == Checked()
    {
      value
    }

    /** Mutable access (`deref_mut`) followed by the caller's write through it:
        `update` is what the caller does to the value in place. It may make
        the value fail the check; nothing is re-validated. A partial `update`
        stands for an operation that panics on some inputs (such as an
        overflowing `+= 1`), and the caller must stay within its domain. */
    method DerefMut(update: V --> V)
      requires Invariant()
      requires update.requires(value)
      modifies this
      ensures Invariant()
      ensures value == update(old(value))
      ensures history == old(history) + [value]
      ensures Checked() == old(Checked())
    {
      value := update(value);
      history := history + [value];
    }
  }

  /** `validate`: run the value's own check once. On `Valid` the value is
      moved, untouched, into a new wrapper; on `InValid(reason)` exactly that
      reason is returned and no wrapper exists. */
  method Validate<V, E>(v: V, validity: V -> Validity<E>) returns (r: Result<Validated<V, E>, E>)
    ensures r.Ok? <==> validity(v) == Valid
    ensures r.Ok? ==> fresh(r.value) && r.value.Invariant() && r.value.validity == validity
    ensures r.Ok? ==> r.value.Deref() == v && r.value.Checked() == v && r.value.history == [v]
    ensures r.Err? ==> validity(v) == InValid(r.error)
  {
    match validity(v)
    case Valid =>
      var w := new Validated(v, validity);
      r := Ok(w);
    case InValid(reason) =>
      r := Err(reason);
  }
}
