# Stru: a two-field `u16` record with a zero test and a transition

This project models `src/main.rs`, a small Rust program whose whole logic is
the record `Stru` with two `u16` fields `x` and `y`, and two operations:

- `Stru::f1(a: u32) -> bool`, an associated function that tests `a == 0`;
- `Stru::f2(&self, b: u16) -> Stru`, which builds a new record: when the
  threshold `b` equals `x` or `y`, both fields go up by one, otherwise both go
  down by one.

`main` builds `Stru { x: 23, y: 456 }` and prints `f1(500_000)` followed by
the `x` of `f2(456)`, that is `false 24`.

Layout:

- `unsigned.dfy`, module `Unsigned`: Rust's `u16` and `u32` as subset types of
  `int`, and the `+ 1` / `- 1` that `f2` applies, both as checked operations
  (the successor or predecessor when it is representable, otherwise nothing)
  and as the wrapping operations of a release build.
- `program.dfy`, module `Program`: the datatype `Stru`, `F1`, the two
  branches `Increment` and `Decrement`, the transition `F2`, the release-build
  transition `F2Wrapping`, and the values `main` prints.

Rust's `u16` arithmetic at the range boundaries panics in a debug build and
wraps in a release build. Neither is taken as the contract: `F2` returns a
`Result` whose error is `Overflow` (increment branch) or `Underflow`
(decrement branch), naming the field whose arithmetic left the range. Rust
evaluates `self.x ± 1` before `self.y ± 1`, so when both fields are out of
range the error names `x`, the field a debug build would panic on.

`f2` takes `&self` and returns a new `Stru`, so the receiver is never
changed. `Stru` is a Dafny datatype, an immutable value, and `F2` a function:
the receiver keeps its `x` and `y` after every call by construction.

## Model

| member | source | states |
|---|---|---|
| Unsigned.CheckedInc | src/main.rs:20-21 | `v + 1` on a `u16` succeeds exactly when `v < 65535`, and then yields a value exactly one higher |
| Unsigned.CheckedDec | src/main.rs:25-26 | `v - 1` on a `u16` succeeds exactly when `v > 0`, and then yields a value exactly one lower |
| Unsigned.WrappingInc | src/main.rs:20-21 | release-build `v + 1`: the successor below 65535, and 0 at 65535 |
| Unsigned.WrappingDec | src/main.rs:25-26 | release-build `v - 1`: the predecessor above 0, and 65535 at 0 |
| Unsigned.IncAgreement | src/main.rs:20-21 | checked and wrapping `+ 1` agree if and only if `v < 65535`; where they differ the wrapped value is smaller than the input |
| Unsigned.DecAgreement | src/main.rs:25-26 | checked and wrapping `- 1` agree if and only if `v > 0`; where they differ the wrapped value is larger than the input |
| Program.F1 | src/main.rs:14-16 | `f1(a)` holds if and only if `a == 0`, for every `u32` up to and including 4294967295; `f1` is a single comparison and promises nothing more |
| Program.Matches | src/main.rs:18 | the increment branch is selected exactly when the threshold is one of the record's two field values |
| Program.Increment | src/main.rs:19-22 | the increment branch succeeds exactly when both fields are below 65535, and then both fields are one higher; otherwise the overflow names `x` when `x` is at the maximum, else `y` |
| Program.Decrement | src/main.rs:24-27 | the decrement branch succeeds exactly when both fields are positive, and then both fields are one lower; otherwise the underflow names `x` when `x` is 0, else `y` |
| Program.F2 | src/main.rs:17-29 | `f2(b)` succeeds exactly when the selected branch stays in range; a threshold matching a field gives `(x+1, y+1)`, any other `(x-1, y-1)`; an error is an overflow exactly when the threshold matched; success keeps `x - y` unchanged |
| Program.MatchEitherField | src/main.rs:18-22 | matching `x`, matching `y` or matching both gives the same result, `(x+1, y+1)` when both are below 65535 |
| Program.UnderflowReachable | src/main.rs:24-27 | example inputs for the error path: `(0, 5)` and `(5, 0)` with threshold 9 underflow on `x` and on `y` (what `F2`'s contract already implies, shown by witnesses) |
| Program.OverflowReachable | src/main.rs:19-22 | example inputs for the error path: `(65535, 7)` and `(7, 65535)` with threshold 7 overflow on `x` and on `y` (what `F2`'s contract already implies, shown by witnesses) |
| Program.F2Wrapping | src/main.rs:17-29 | release-build `f2`: both fields move by one modulo 2^16, up when the threshold matches a field and down otherwise; inside the range that is exactly `(x+1, y+1)` or `(x-1, y-1)` |
| Program.WrappingAgreesInRange | src/main.rs:17-29 | wherever `F2` succeeds, the release build computes the same record |
| Program.WrappingDifference | src/main.rs:17-29 | the release build keeps `x - y` modulo 2^16 on every input, and keeps it as an integer exactly when `F2` succeeds or `x == y`; so the wrap breaks the difference exactly when `F2` reports an error and `x != y` |
| Program.WrappingBreaksDifference | src/main.rs:25-26 | the release build turns `Stru { x: 0, y: 5 }.f2(9)` into `(65535, 4)`, changing `x - y`, where `F2` reports an underflow on `x` |
| Program.MainValues | src/main.rs:33-34 | the two values `main` prints are `false` and `24` |
| Program.XOf | src/main.rs:34 | reading `.x` of a transition's outcome: succeeds exactly when the transition did, with the new record's `x`; an error passes through unchanged |
| Program.DemoScenarios | src/main.rs:33-34 | from `(23, 456)`, threshold 456 gives the whole record `(24, 457)`, and threshold 1, which matches neither field, gives `(22, 455)` |

## Findings

| source | as written | input that shows it | evidently intended | confidence | as-written member | corrected member |
|---|---|---|---|---|---|---|
| src/main.rs:25-26 | `self.x - 1` and `self.y - 1` on `u16` with no guard (and likewise `+ 1` at lines 20-21): a debug build panics, a release build wraps | `Stru { x: 0, y: 5 }.f2(9)`: no match, so `x - 1` on 0; a release build yields `(65535, 4)`, and `x - y` jumps from -5 to 65531; the wrap breaks `x - y` exactly when the checked transition reports an error and `x != y` (`(0, 0).f2(9)` wraps to `(65535, 65535)` and keeps it) | leaving the `u16` range is reported to the caller as an overflow or underflow, and every successful transition keeps `x - y` | medium; not executed | Program.WrappingBreaksDifference | Program.F2 |

## Left out

- The console output of `main` (src/main.rs:34): `print!` and its formatting are I/O; only the two printed values are modelled, by `MainValues`.
- `#[macro_use] extern crate t_bang` and `use t_bang::*` (src/main.rs:1-2, 7): a foreign crate that the logic does not use; t_bang is not part of this model.
- The unused `std::io::Read` and `std::io::Write` imports (src/main.rs:4-5): no behaviour.
- The debug-build panic itself: process termination is not modelled; `F2` returns the error a caller would otherwise never see.
