# Lockstep zip iterators, modelled in Dafny

This project models `src/ziptuple.rs` of the `itertools` crate. The file holds two
combinators that step a tuple of iterators in lockstep:

- **`Zip<(A, …, M)>`** works over any iterators. `next` pulls one element from each
  component, left to right, and returns `None` at the first exhausted one. Components
  pulled earlier in that call stay advanced; this is the "partial consume" the source
  documents. `size_hint` folds the components' `(lower, Option<upper>)` hints into one.
- **`ZipTrusted<(A, …, M)>`** only accepts iterators that carry the `TrustedIterator`
  marker, whose size hint is always exact. It caches `length`, the least of the components'
  lower bounds. `next` stops when `length == 0`. Otherwise it pulls once from every
  component, `assume`s that no pull returns `None`, and decrements `length`. Its
  `size_hint` is `(length, Some(length))`.

The source writes each combinator once per arity from 1 to 9, using a macro. The model
writes each one once, for any number N ≥ 1 of components that share one element type.
A tuple of the source is a `seq` here.

Files:

- `wrappers.dfy`: `Option`, with `Or` (Rust's `Option::or`).
- `size_hint.dfy`: the size-estimate protocol. It holds `SizeHint`, the fold of
  `Zip::size_hint` (`Combine`, `FoldHints`, `ZipHint`) and what that fold computes.
- `cursor.dfy`: a component iterator. It is a fused cursor over the elements it has left.
  Its hint may be loose by a fixed slack on either side, or may report no upper bound.
  `Exact()` is the `TrustedIterator` promise: the hint equals `(n, Some(n))`, where `n` is
  the number of elements left.
- `zip.dfy`: `Zip` as a class whose `comps` field `next` reassigns. It also holds `Step`,
  which is one call of `next` as a value, and `Collect`, which is every tuple repeated
  calls yield. Lemmas about both follow.
- `zip_trusted.dfy`: `ZipTrusted` as a class with `length` and `comps` fields. Its
  invariant is that every component is exact and that `length` is the least number of
  elements any component has left. The source's `assume` becomes an `assert false` in the
  unreachable `None` arm, and that assertion is proved.
- `examples.dfy`: the documentation examples of both combinators.

`Zip`'s upper bound is the least of the upper bounds that the components report
(`high.or(h)`, src/ziptuple.rs:78-81). It is `None` only when no component reports one,
not "absent if any is absent". The model computes what the code computes
(`SizeHints.ZipHintIsMin`). It also proves that this estimate is truthful
(`SizeHints.ZipHintBounds`, `Zips.ZipHintSound`). An absent upper bound means "unbounded",
so the minimum over the reported bounds is still a valid bound.

## Model

| member | source | states |
|---|---|---|
| `SizeHints.FoldHintsIsMin` | src/ziptuple.rs:76-82 | Folding the per-component `let` steps from a running estimate gives the least lower bound over the running estimate and all hints. It gives the least reported upper bound, which is `None` only if no hint reports one. |
| `SizeHints.ZipHintIsMin` | src/ziptuple.rs:69-84 | `Zip::size_hint` returns the least of the components' lower bounds. Its upper bound is the least of the upper bounds the components report, and is `None` exactly when no component reports one. |
| `SizeHints.ZipHintBounds` | src/ziptuple.rs:78-81 | If each component's hint is truthful for its remaining count, the combined hint is truthful for the least of those counts. |
| `Cursors.PullPreservesExact` | src/ziptuple.rs:101-107 | The exact-size promise holds "always": after `next`, an exact component is still exact and reports one element fewer. |
| `Zips.StepYields` | src/ziptuple.rs:61-66 | When every component has an element, `next` returns the tuple of their first elements in component order. Every component advances by exactly one, and the zip has one tuple fewer left. |
| `Zips.StepEnds` | src/ziptuple.rs:58-66 | When some component is exhausted, `next` returns `None`. Components before the first exhausted one lose one element, the rest are untouched, and every later call also returns `None`. |
| `Zips.CollectStep` | src/ziptuple.rs:54-67 | One call of `next` either yields the first of the remaining tuples and leaves the rest to later calls, or ends the zip with no tuples left. It yields a tuple exactly when the shortest component is not empty. |
| `Zips.CollectLength` | src/ziptuple.rs:9-10 | Repeated `next` on components with L1..LN elements yields exactly min(L1..LN) tuples before the first `None`. |
| `Zips.CollectAt` | src/ziptuple.rs:61-66 | The j-th tuple yielded holds the j-th element of each component, in component order. |
| `Zips.CollectZips` | src/ziptuple.rs:9-13 | The zip yields exactly min(L1..LN) tuples, and tuple j is the j-th element of every component. |
| `Zips.ZipHintSound` | src/ziptuple.rs:69-84 | `Zip::size_hint` is truthful for the number of tuples the zip will still yield, whatever slack the components' hints carry. |
| `Zips.Zip.constructor` | src/ziptuple.rs:37-40 | `Zip::new` stores the components unchanged. It checks nothing and cannot fail. |
| `Zips.Zip.Next` | src/ziptuple.rs:54-67 | `Zip::next` updates the components in place and returns exactly what `Step` describes. That is the tuple of first elements when no component is exhausted. Otherwise it is `None`, with the components before the first exhausted one advanced and the later ones untouched. |
| `Zips.Zip.SizeHint` | src/ziptuple.rs:69-84 | `Zip::size_hint` reads the state without changing it. It gives the least lower bound and the least reported upper bound, and it is truthful for the tuples still to come. |
| `Zips.Drain` | src/ziptuple.rs:24-26 | A caller's `for` loop over a `Zip` collects exactly `Collect` of the initial components, and leaves the zip exhausted. |
| `TrustedZips.ExactZipHint` | src/ziptuple.rs:237-240 | Over exact components, the general fold gives `(m, Some(m))`, where `m` is the least remaining count. That is the same estimate `ZipTrusted::size_hint` reports. |
| `TrustedZips.ExactMinLower` | src/ziptuple.rs:192-199 | Over exact components, the least lower bound equals the least remaining count. This is the value `set_length` caches. |
| `TrustedZips.TrustedStep` | src/ziptuple.rs:219-234 | A step over exact components that all have an element finds none of them exhausted. It yields the heads, keeps every component exact, and leaves the least remaining count one smaller. |
| `TrustedZips.PullEachTrusted` | src/ziptuple.rs:219-232 | Pulling once from each of a set of non-empty components yields their first elements and advances each by one. The `None` arm is proved unreachable, where the source assumes it. |
| `TrustedZips.ZipTrusted.constructor` | src/ziptuple.rs:169-177 | `ZipTrusted::new` stores the components and sets `length` to the least of their lower bounds. This establishes the invariant `length == MinRemaining(comps)`. |
| `TrustedZips.ZipTrusted.SetLength` | src/ziptuple.rs:190-200 | `set_length` caches the least lower bound. The `debug_assert!` that each hint is exact (`Some(l) == h`) is proved for every component. |
| `TrustedZips.ZipTrusted.Next` | src/ziptuple.rs:212-235 | With `length == 0`, `next` returns `None` and touches no component. Otherwise it returns the tuple of first elements, advances each component by one, decrements `length` and keeps the invariant. Its result always equals the general `Zip`'s result on the same components. |
| `TrustedZips.ZipTrusted.SizeHint` | src/ziptuple.rs:237-240 | `size_hint` is `(m, Some(m))` for the true number `m` of tuples left, and equals the general `Zip`'s estimate on the same components. |
| `TrustedZips.DrainTrusted` | src/ziptuple.rs:150-152 | A caller's `for` loop over a `ZipTrusted` yields exactly the general zip's tuples, and `length` of them. It ends with `length == 0` and the hint `(0, Some(0))`. |
| `DocExamples.ZipDocExample` | src/ziptuple.rs:17-29 | `Zip` over `0..end` (with `end` ≥ 3), `[0, 0, 0]` and `[69, 107, 101]` yields `(0, 0, 69)`, `(1, 0, 107)` and `(2, 0, 101)`, and no more. |
| `DocExamples.ZipTrustedDocExample` | src/ziptuple.rs:143-155 | The same example through `ZipTrusted` yields the same three tuples. Its hint starts at `(3, Some(3))` and ends at `(0, Some(0))`. |

## Left out

- The `#[derive(Clone)]` impls (src/ziptuple.rs:6, 128): copying a value adds nothing to verify.
- The `unsafe impl TrustedIterator` grants for `Range<…>`, `slice::Iter`, `slice::IterMut`,
  `vec::IntoIter`, `Rev` and `Take` (src/ziptuple.rs:109-125). Whether those types keep the
  promise depends on standard-library code that is not part of this model. The model has
  one abstract component, `Cursors.Cursor`, and exactness is a property of its instances
  (`Exact()`, kept by `PullPreservesExact`). It is not a marker on a type. So a prefix-limited
  (`Take`) or reversed (`Rev`) exact iterator is not modelled.
- `std::intrinsics::assume` as a runtime construct (src/ziptuple.rs:222-226). Its
  undefined behaviour on violation is not modelled. The assumed fact is proved instead, from
  the invariant of `ZipTrusted`.
- The `debug_assert!` in `set_length` as a panic: exactness is a precondition, so the
  assertion is proved and the panic cannot happen.
- The per-arity macro expansions (src/ziptuple.rs:90-98, 245-253): arities 1 to 9 become one
  definition for any N ≥ 1. There is no zip of zero components, because the source
  implements no arity 0.
- Heterogeneous element types: all components share one element type `T`. A tuple of the
  source becomes a `seq<T>`.
- `usize` width: counts and bounds are `nat`. The fold's `usize::MAX` starting value is
  replaced by the first component's lower bound, which gives the same result for N ≥ 1. No
  arithmetic in the core can overflow: `length` is only decremented when it is positive.
- Components are fused cursors over finite sequences with truthful hints. An iterator that
  yields again after `None`, an infinite iterator, or one whose `size_hint` is wrong is not
  modelled. `SizeHints.ZipHint` and `ZipHintIsMin` still apply to arbitrary hints.
- Ownership and aliasing: a zip owns its components exclusively, so they are values held in
  its `comps` field. `Zip.Next` updates that field component by component, in place.
  `ZipTrusted.Next` pulls through `PullEachTrusted` on a copy of the components and then
  stores the result. The two agree because that loop never leaves early.
- The caller's writes in the documentation examples (`*a = i ^ *b`, src/ziptuple.rs:25, 151)
  belong to the caller. The examples stop at the tuples the zips yield.
