# Secret: a zeroizing, fixed-length secret container

A model of `Secret<LENGTH>` from the librypt-secret Rust crate. The type
holds sensitive bytes in a buffer of `LENGTH` bytes that it owns on the heap.
It has three operations:

- `Secret::new` takes the caller's `&mut [u8; LENGTH]` and allocates a
  zero-filled buffer. It swaps that buffer with the caller's buffer, so the
  secret moves into the container and the caller is left holding zeros.
- `AsRef::as_ref` lends out a read-only view of the owned bytes.
- `Drop::drop` overwrites every owned byte with 0 in a loop.

The files:

- `bytes.dfy`, module `Bytes`, treats byte buffers as values. A byte is
  `bv8`. The module defines the zero buffer `Zeros(n)` (`[0u8; n]`) and the
  predicate `AllZero`. `ZeroPrefix(s, k)` is the buffer after `k` iterations
  of the drop loop. Lemmas relate these to each other.
- `secret.dfy`, module `Secrets`, holds the class `Secret`. Its fields are
  `Length` and the owned `bytes: array<bv8>`. It also has
  `SwapContents`, which plays the part of `std::mem::swap` on two byte
  arrays, and `UseAndDrop`, a caller that builds a container, reads it and
  drops it.

`Length` and `bytes` are `const`: the source never replaces the box, and an
array's length is fixed. In the source `LENGTH` is a const generic parameter,
part of the type. Here it is a per-container constant set from the
constructor's argument. The type-level length match becomes the constructor's
precondition `secret.Length == length`, and two containers need not share a
length. `Valid()` says the buffer has `Length` bytes, so it
holds from construction on. The ghost field `live` is modelling scaffolding
and is not a field of the source. It stands for what Rust's ownership rules
guarantee: the container is used only between construction and drop, and it
is dropped once. The constructor sets `live`. `AsRef` and `Drop` require it,
and `Drop` clears it. So a second `Drop`, or an `AsRef` after `Drop`, cannot
be called by a client that does not write `live`.

## Model

| member | source | states |
|---|---|---|
| `Bytes.Zeros` | src/lib.rs:11 | the buffer `[0u8; n]` allocated in `new` has exactly `n` bytes, and every one of them is 0 |
| `Bytes.AllZeroIffZeros` | src/lib.rs:9-13 | a buffer is all zero if and only if it equals the zero buffer of its own length (both directions) |
| `Bytes.ZeroPrefix` | src/lib.rs:29-31 | the buffer after `k` iterations of the drop loop, each writing 0 at the next position, keeps its length |
| `Bytes.ZeroPrefixAt` | src/lib.rs:29-31 | after `k` iterations, positions below `k` read 0 and positions from `k` on keep their original bytes |
| `Bytes.ZeroPrefixComplete` | src/lib.rs:29-31 | once the loop has visited every position, the buffer is the zero buffer of the same length |
| `Bytes.ZeroingErases` | src/lib.rs:28-31 | zeroing leaves the buffer unchanged if and only if it was already all zero, and every non-zero byte of the secret is overwritten |
| `Secrets.SwapContents` | src/lib.rs:13 | each of two distinct, equally long buffers ends up with exactly the other's former contents |
| `Secrets.Secret.constructor` | src/lib.rs:9-16 | under no precondition beyond the length match, the container's buffer is freshly allocated, so it does not alias the caller's buffer. It has `Length` bytes and holds exactly the caller's bytes from call time, and the caller's buffer now holds `Length` zeros |
| `Secrets.Secret.AsRef` | src/lib.rs:21-23 | the view has exactly `Length` bytes and they are the container's current bytes. As a function it changes no state |
| `Secrets.Secret.Drop` | src/lib.rs:28-32 | afterwards every byte of the owned buffer is 0 and its length is unchanged. Only the owned buffer and the scaffolding flag are written. The loop invariant ties the buffer after `i` iterations to `ZeroPrefix` |
| `Secrets.UseAndDrop` | src/lib.rs:10-32 | over one whole lifecycle, the caller reads back its original bytes. Afterwards both the caller's buffer and the container's buffer are all zero, and dropping the container did not disturb the caller's buffer |

## Left out

- Whether the zeroing writes survive dead-store elimination (src/lib.rs:27) depends on the compiler. The model's writes are always observed.
- Protection of the memory by the operating system (page locking, swap, core dumps) is only an intention (src/lib.rs:3). No code implements it.
- The absence of `Copy`/`Clone` (src/lib.rs:1) and the lifetime of the borrowed view (src/lib.rs:20) are guarantees of Rust's type system. The ghost `live` flag stands in for the use-before-drop and drop-once discipline only. The model does not rule out copying the view: `AsRef` returns a sequence value.
- Field privacy: `bytes` is private in the source (src/lib.rs:5). In the model `bytes` and `live` are public. Exclusive ownership of the buffer and drop-once therefore hold only by convention: a client can pass `s.bytes` to another constructor, or reset `live`.
- Heap allocation and freeing of the `Box` are not modelled. That covers allocation failure and the order of zeroing relative to freeing. The only observable point is the end of `Drop`.
- `SwapContents` exchanges the two buffers one position at a time. `std::mem::swap` makes no promise about intermediate states, and no caller can observe them. The model states only the final state.
- Concurrency: the type has none.
