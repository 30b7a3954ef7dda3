# libipp downsampling pyramid, modelled in Dafny

libipp is a small Rust wrapper around Intel IPP. It provides image buffers,
a linear resize operator and a downsampling pyramid. This project models
the logic that `src/lib.rs` owns:

- **Pitched 8-bit image buffers** (`IppImageBuf<u8>`). Rows are stored
  `pitch >= width` samples apart. `load` copies a packed image into the
  region of interest and `store` copies it back out.
- **The linear resize operator** (`IppImageResizeLinear<u8>`). It is
  configured for one source and one destination resolution and checks
  the buffers it is given against them.
- **The downsampling pyramid** (`IppImageDownsamplePyramid<u8>`).
  - `new` computes the chain of intermediate resolutions. Each step halves
    a dimension, rounding up, while it is at least twice the target, and
    otherwise snaps it to the target. It allocates one buffer per level
    and one operator per pair of consecutive levels.
  - `downsample` loads the source into level 0, runs the operators in
    order and stores the last level.

Modules:

- `Image`: resolutions and row arithmetic.
- `Layout`: the pitched memory layout as pure functions.
  - `Packed` is the image a buffer holds.
  - `Scatter` is the memory after writing an image into the region of
    interest.
- `Buffers`: class `ImageBuf`, with nested-loop `Load`/`Store`.
- `Resize`: the operator and its checks.
- `Topology`: the level chain as pure functions, with its lemmas.
- `Pyramid`: class `DownsamplePyramid`, with the constructor loop and
  `Downsample`.

Rust `assert!`/`assert_eq!` failures in `load`, `store`, `resize` and
`downsample` are modelled as an `ok` result of `false`. Where the Rust code
would panic before writing anything, the state is left unchanged.
`new`'s two assertions cannot be expressed that way by a constructor. They
are preconditions instead.

The loop guard in `new` is `prev_width > dst_width && prev_height > dst_height`,
and the model keeps it as written. The loop stops as soon as either
dimension reaches its target, so the last level need not be the target
resolution. For example, 1024 x 768 → 100 x 100 ends at 128 x 100
(`Topology.Example1024x768`). In that case `downsample` fails its store
length check (`Topology.Example1024x768AreaMismatch`). The last level is
the target only when the source already is the target, or when both
dimensions reach it on the same step.

## Model

| member | source | states |
|---|---|---|
| Image.AreaIsProduct | src/lib.rs:70 | the packed image length used throughout is `width * height`, the length `load`/`store` demand |
| Image.RowStartIsProduct | src/lib.rs:71-77 | row `y` of a buffer with stride `s` starts at sample `y * s` |
| Image.RowOfOffset | src/lib.rs:71-77 | sample `x < s` of row `y` is recovered as row `y`, column `x` from its flat offset (the copy's addressing is invertible) |
| Layout.Packed | src/lib.rs:83-89 | the image the copy-out reads from a pitched buffer: `width * height` samples, row after row, pixel (x, y) taken from memory sample `y * pitch + x` (PackedAt) |
| Layout.Scatter | src/lib.rs:71-77 | the memory after the copy-in: same length as before, the region of interest holds the image (ScatterAt) and every other sample keeps its value (ScatterKeepsPadding) |
| Layout.PackedAt | src/lib.rs:81-91 | pixel (x, y) of the packed image is memory sample `y * pitch + x` of the buffer |
| Layout.ScatterAt | src/lib.rs:69-79 | after writing an image, memory sample `y * pitch + x` holds pixel (x, y) of the image |
| Layout.ScatterKeepsPadding | src/lib.rs:69-79 | writing an image leaves the padding columns `width .. pitch` of every row, and memory beyond the last row, unchanged |
| Layout.PackedOfScatter | src/lib.rs:69-91 | round trip: reading back the region of interest after writing an image yields exactly that image |
| Layout.ScatterOfPacked | src/lib.rs:69-91 | round trip the other way: writing back the image a buffer holds leaves its memory unchanged |
| Buffers.ImageBuf.Alloc | src/lib.rs:57-67 | a fresh buffer of the given width and height, pitch at least the width (width plus allocator padding), memory of `pitch * height` samples |
| Buffers.ImageBuf.Load | src/lib.rs:69-79 | succeeds iff the slice has `width * height` samples; then the buffer holds exactly that image, the memory is the row-by-row scatter of it, and the padding is untouched; otherwise nothing changes |
| Buffers.ImageBuf.WriteRoi | src/lib.rs:71-77 | the pitched copy itself: memory becomes the scatter of the image, the buffer holds the image, padding unchanged |
| Buffers.ImageBuf.Store | src/lib.rs:81-91 | succeeds iff the output has `width * height` samples; then it holds exactly the buffer's image; otherwise it is unchanged; the buffer is only read |
| Resize.NewResizeLinear | src/lib.rs:103-139 | the operator `new` builds (datatype `ResizeLinear`) records exactly the source and destination resolutions it was given (lines 135-136); its filter data is opaque |
| Resize.ResizeLinear.Resize | src/lib.rs:141-157 | succeeds iff the source buffer has the configured source resolution and the target buffer the configured destination resolution; then the target holds the resampled source image and only its region of interest changed; otherwise the target is unchanged; only the target is written |
| Topology.Continues | src/lib.rs:176 | the loop guard as written, `&&` of the two comparisons: for a level covering the target it fails iff the width or the height already equals the target's |
| Topology.Terminates | src/lib.rs:176-191 | the condition under which the loop terminates; it fails exactly for a 0 x 0 target with a source of at least 1 x 1 |
| Topology.NonTerminatingInputsDiverge | src/lib.rs:176-191 | on every input the termination condition excludes, the guard still holds after any number of iterations |
| Topology.NextDim | src/lib.rs:177-186 | the next size lies between the target and the previous size, is at least half the previous size, is the target or the smallest size with that ratio, and is strictly smaller unless it steps 1 to a 0 target |
| Topology.NextDimUnique | src/lib.rs:177-186 | those properties determine the next size uniquely |
| Topology.NextLevel | src/lib.rs:176-191 | one loop step covers the target and is covered by the previous level, shrinking each dimension by at most half |
| Topology.Levels | src/lib.rs:171-191 | the loop's level sequence starts at the source resolution; it terminates under the termination condition (decreasing `width + height`) |
| Topology.Advance | src/lib.rs:176-191 | any number of loop iterations keeps the level between the starting level and the target |
| Topology.LevelsCover | src/lib.rs:176-191 | every level is at least the target in both dimensions |
| Topology.LevelsChain | src/lib.rs:176-191 | each level after the first is the loop step of the one before it, and the guard held there |
| Topology.LevelsStep | src/lib.rs:177-186 | levels never grow and each step shrinks a dimension by at most a factor of two |
| Topology.LevelsAreIterates | src/lib.rs:176-191 | level `k` is the resolution after `k` loop iterations |
| Topology.LevelsLast | src/lib.rs:176 | the loop stops at the last level: its width or its height equals the target's |
| Topology.LevelsCount | src/lib.rs:176-191 | the number of levels is at most `src_w + src_h - dst_w - dst_h + 1` |
| Topology.ZeroTargetNeverStops | src/lib.rs:176-191 | with a 0 x 0 target, a level of at least 1 x 1 passes the guard after any number of iterations: the loop does not terminate |
| Topology.OneDimensionAtTarget | src/lib.rs:176 | when one source dimension already equals the target's there is a single level and no operator |
| Topology.LastAreaIsTargetArea | src/lib.rs:202-209 | for a target of at least 1 x 1, the last level has the target's area iff it is the target |
| Topology.AreaGrows | src/lib.rs:202-209 | a resolution covering a different one of at least 1 x 1 has more pixels |
| Topology.Example1024x768 | src/lib.rs:176-191 | 1024 x 768 → 100 x 100 visits 1024 x 768, 512 x 384, 256 x 192, 128 x 100 |
| Topology.Example1024x768AreaMismatch | src/lib.rs:209 | that last level has 12800 pixels, not 10000 |
| Topology.Example1024x256 | src/lib.rs:176-191 | 1024 x 256 → 100 x 100 visits 1024 x 256, 512 x 128, 256 x 100 |
| Topology.Example800x800 | src/lib.rs:176-191 | 800 x 800 → 100 x 100 halves three times and ends at the target |
| Topology.Example16x16 | src/lib.rs:176 | a source equal to the target gives a single level |
| Pyramid.Cascade | src/lib.rs:203-208 | the image after resizing along a chain of levels has the last level's area |
| Pyramid.CascadeStep | src/lib.rs:205-208 | one more level of the cascade is one more resize, from level `k` to level `k + 1` |
| Pyramid.IdentityCascade | src/lib.rs:200-210 | when the source is the target there is one level and downsampling passes the image through unchanged |
| Pyramid.PushLevel | src/lib.rs:187-188 | one loop iteration appends a fresh buffer of the next resolution and an operator from the last level to it, keeping the chain well formed |
| Pyramid.DownsamplePyramid.constructor | src/lib.rs:168-198 | buffer resolutions are exactly the loop's levels; buffer 0 has the source resolution; operator `k` maps buffer `k` to buffer `k + 1`; one more buffer than operators; all memory fresh and distinct |
| Pyramid.DownsamplePyramid.Downsample | src/lib.rs:200-210 | succeeds iff the source and target lengths are the source and target areas and the last level has the target's area; then the target is the cascade of resizes over the levels in increasing order; a length mismatch changes nothing; on failure the target is unchanged |

## Left out

- The IPP calls are foreign code: `ippiMalloc_8u_C1`, `ippsMalloc_8u`, the frees, `ippiResizeGetSize_8u`, `ippiResizeLinearInit_8u`, `ippiResizeGetBufferSize_8u` and `ippiResizeLinear_8u_C1R`.
  - The interpolation is a function parameter (`Interpolation`) of the resize and downsample operations.
  - The allocator's padding is a function parameter (`Allocator`), so the pitch is any value at least the width.
  - `ippiCopy_8u_C1R` is modelled by its region-of-interest semantics, as the nested copy loops.
- Native-success assertions: the null-pointer checks (lines 26, 60) and `is_ok()` (lines 78, 90, 114, 122, 130, 156). The model treats native calls as succeeding.
- The resize operator's specification and scratch buffers (`IppTemporalBuf`, lines 11-40 and 103-131) are opaque. So is the `init_buf_size == 0` assertion (line 115). `ResizeLinear` records only the two resolutions (lines 135-136).
- `Drop` impls and native frees (lines 16-21, 49-54): resource release.
- The `as _` casts to C `int`, `PhantomData` and `src/ffi.rs`. `src/ffi.rs` is not part of this model.
- Pyramid.DownsamplePyramid.constructor: `new`'s assertions `src_width >= dst_width` and `src_height >= dst_height` are preconditions, because a constructor has no failure result.
  - It also requires a target of at least one non-zero dimension, or a source with a zero dimension. Without that the Rust loop never ends (`Topology.ZeroTargetNeverStops`).
- Machine integers: `usize` overflow in `2 * dst_width`, `prev_width + 1` and `width * height` is not modelled. Sizes are unbounded naturals.
- Concurrency: none in the source beyond `&mut self` exclusivity, which the `modifies` clauses express.
- Pyramid.DownsamplePyramid.Downsample: the model checks the two lengths together. Rust checks the source length first, then the target length. With either order the call panics (`ok` is false) before anything is written.
