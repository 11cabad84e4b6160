# Tiva — tiny validation, modelled in Dafny

Tiva turns a value that can check its own validity into a `Validated`
wrapper. The wrapper can only be obtained through `validate`, so holding one
shows that the check passed when it was built. The model has two modules:

- `Tiva` (`tiva.dfy`): the outcome type `Validity` (`Valid` or
  `InValid(reason)`), Rust's `Result`, the `Validated` class, and the
  `Validate` entry point. The `Validate` trait's associated `Error` type
  becomes a type parameter `E`. Its required `validity(&self)` becomes a
  function value `V -> Validity<E>`, passed to `Validate`.
- `ByteRange` (`byte_range.dfy`): the crate's test instance. A `u8` is valid
  in `5..=10`. It reports `TooSmall` below 5 and `TooBig` above 10. The
  module also holds the two tests, written as methods whose postconditions
  state what the tests assert, and one further scenario of this model's
  own (`StaleAfterMutation`, which is not among the crate's tests) showing
  that a write through the wrapper is not re-checked.

`Validated` is a class with one real field, `value`. Ghost state records
what the Rust type system guarantees. `validity` is the check the value
passed. `history` lists every value the wrapper has held, so `history[0]` is
the checked value. The invariant requires only that `history[0]` passed the
check and that `value` is the last entry of `history`. In Rust the field
`value` is private to the crate, and `validate` is the one place that builds
a wrapper; the check it runs is the one fixed by the type `V`. Here the
constructor instead requires a proof that the value passes the check
recorded in the wrapper. That check is chosen by whoever builds the wrapper,
so the Rust guarantee ("this wrapper's value passed `V`'s own check") holds
only for wrappers whose recorded `validity` is that check;
`ByteRange.RangeWrapperChecked` shows that it then holds for bytes.

## Model

| member | source | states |
|---|---|---|
| `Tiva.Validate` | src/lib.rs:16-26 | returns `Ok` exactly when `validity(v)` is `Valid`; on `Ok` the wrapper is new, reads back `v` unchanged and records `v` as the checked value; on `Err` the error is exactly the reason in `InValid(reason)` and no wrapper exists |
| `Tiva.Validated.constructor` | src/lib.rs:7-9 | a wrapper can be built only around a value that passes its check, and it starts holding that value |
| `Tiva.Validated.Deref` | src/lib.rs:28-34 | a read is side-effect free and returns the most recently written value, which is the checked value if nothing has been written since construction |
| `Tiva.Validated.DerefMut` | src/lib.rs:36-40 | a write through the mutable reference replaces exactly the wrapped value with the update of the old one; later reads see it; the checked value and the invariant are kept; the new value is not re-checked |
| `ByteRange.RangeValidity` | src/lib.rs:51-63 | `Valid` if and only if 5 <= x <= 10, `InValid(TooSmall)` if and only if x < 5, `InValid(TooBig)` if and only if x > 10 |
| `ByteRange.RangeWrapperChecked` | src/lib.rs:7-9 | a byte wrapper whose recorded check is the byte's own check was built from a byte in 5..=10, whatever has been written to it since |
| `ByteRange.OutcomeCensus` | src/lib.rs:54-62 | a property derived from the check, not one the crate states: every byte gets exactly one outcome: the 5 bytes 0..=4 are too small, the 6 bytes 5..=10 are valid, the 245 bytes 11..=255 are too big |
| `ByteRange.DerefTest` | src/lib.rs:65-75 | validating 0 gives `Err(TooSmall)`, validating 7 gives a wrapper that reads 7, validating 11 gives `Err(TooBig)` |
| `ByteRange.DerefMutTest` | src/lib.rs:77-84 | validating 7 and then adding 1 through the wrapper reads back 8 |
| `ByteRange.StaleAfterMutation` | src/lib.rs:36-40 | validating 10 and then adding 1 through the wrapper reads back 11, which the check rejects as `TooBig`; the wrapper still holds it, because mutation is not re-checked |

## Left out

- Rust ownership: `validate(self)` consumes its input and drops it on failure. This is a borrow-checker property with no Dafny counterpart. The model passes the value by copy. A `Validated` is a heap object here, so two references may alias one wrapper and a write through one is seen through the other; in Rust a `Validated` has a single owner.
- Tiva.Validated.constructor: the check is an argument chosen by the caller and stored per wrapper, because without traits it cannot be bound to the type `V`; a wrapper can therefore be built around a value that passes some other check (for instance one that accepts everything). A consumer that needs the Rust guarantee must require `w.validity` to be the type's own check, as `ByteRange.RangeWrapperChecked` does.
- Visibility: the private `value` field and private construction have no Dafny counterpart here. They are replaced by the constructor's precondition.
- The `Deref`/`DerefMut` trait machinery and auto-deref syntax are not modelled. `deref` becomes a read function, and `deref_mut` followed by a write becomes one update method.
- `u8` overflow: `+= 1` on 255 panics in a debug build. `DerefMut` takes a partial update function, and the tests pass `x + 1` with the precondition `x < 255`. Wrap-around in release builds is not modelled.
- The test helpers `is_ok_and`, `is_err_and` and `matches!` are not modelled. Their checks appear as the test methods' postconditions.
- External validators and the blanket bridging `.validate()` are not modelled, because `src/lib.rs` does not contain them.
