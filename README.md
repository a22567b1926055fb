# Image reorientation converter (VLC `orient` module)

This project models the video converter in `modules/video_chroma/orient.c`, which
reorients pictures. The converter turns a picture from one orientation into another
with one of seven geometric transforms:

- horizontal flip and vertical flip;
- rotation by 90, 180 and 270 degrees;
- transposition and anti-transposition.

The model covers the four parts of the file:

- **The plane primitives.** `hflip`, `vflip`, `r180`, `transpose`, `r270`, `r90` and
  `antitranspose` are methods over arrays with their nested loops (`planes.dfy`).
  - Each has one generic implementation over an opaque sample type `T`. This stands
    for the 8, 16 and 32-bit instances that `TRANSFORMS(bits)` generates.
  - A plane is walked from a start index by a non-negative pitch in a direction, as a
    `Walk`. The C code's "move the base to the last row and negate the stride" becomes
    `Walk.Reversed`.
  - Each primitive is proved against two things:
    - its cell equation, for example `dst[height-1-y][width-1-x] == src[y][x]` for `r180`;
    - a frame condition: no index outside the destination rectangle changes.
  - The derived primitives call `HFlipPlane`, `TransposePlane` or `R270Plane` on
    reversed walks, exactly as the C code delegates.
- **The dispatch table and the call through it** (`dispatch.dfy`). One entry per kind
  and sample width. Byte strides are divided by the sample size before the primitive
  runs. One predicate, `Planes.Transformed`, states the cell equations of all seven
  kinds at once through `Orientation.Target`, the place a source sample is sent to.
- **Negotiation** (`negotiation.dfy`). `Open` follows the C checks in order:
  - identity;
  - the seven compared format fields;
  - unknown chroma;
  - allocation of the configuration;
  - pixel size;
  - the square-sampling check for axis-swapping kinds;
  - the NV12/NV21 patch of plane 1.

  Its contract says exactly when it succeeds, when it fails with `ENOMEM`, and which
  primitive each plane slot then holds.
- **Frame application** (`frames.dfy`). `Filter` runs each plane's primitive on a
  `Picture` class. Ghost fields record how often a picture was released and whose
  properties were copied onto it.
- **The pointer mapping** (`mouse.dfy`). `Mouse` maps a point of the output picture
  back to the input picture. It is proved to be the exact inverse of `Target`, and so
  to find the input sample that a primitive copied to that point.

The model imports nothing from outside the project. The functions that `Open` calls
and that are defined elsewhere are taken as inputs:

- `video_format_GetTransform` becomes the `transform` argument;
- `video_format_TransformBy` becomes the `srcTrans` format;
- `vlc_fourcc_GetChromaDescription` becomes an optional chroma description;
- the `vlc_obj_malloc` outcome becomes a boolean.

`filter_NewPicture` becomes the `newPicture` argument of `Filter` (null when the
allocation failed). `picture_Release` and `picture_CopyProperties` become ghost
updates.

The data types follow the C structures:

- `Negotiation.FilterSys` is `filter_sys_t` (orient.c:174-178): the negotiated kind and
  one primitive per plane slot. `Negotiation.ValidSys` is what `Open` guarantees of it.
- `Frames.PlaneBuffer` is `plane_t`: the samples, `i_pitch`, `i_visible_pitch`,
  `i_pixel_pitch` and `i_visible_lines`.
- `Frames.Picture` is `picture_t`: its planes, plus ghost records of releases and
  property copies.

Two points of order and naming, stated as the code has them:

- `Open` allocates its configuration, and can fail with `ENOMEM`, before it checks the
  pixel size (orient.c:284-304).
- Rows are indexed before columns in every cell equation. For example, r90's cell
  equation is `dst[x][src_height-1-y] == src[y][x]`, and r270's is
  `dst[src_width-1-x][y] == src[y][x]`.

## Model

| member | source | states |
|---|---|---|
| Planes.CopyRow | modules/video_chroma/orient.c:49 | count samples from src at s are in dst from d on, in order, and every other index of dst is unchanged |
| Planes.ReverseRow | modules/video_chroma/orient.c:67-68 | the samples of one source row are written right to left ending at d; nothing else in dst changes |
| Planes.VFlipPlane | modules/video_chroma/orient.c:37-52 | destination row height-1-y holds source row y with its sample order kept; only the visible destination rectangle is written |
| Planes.HFlipPlane | modules/video_chroma/orient.c:55-73 | destination row y, column width-1-x holds source row y, column x; only the visible destination rectangle is written |
| Planes.Walk.Reversed | modules/video_chroma/orient.c:88-89 | moving the base to the last row and negating the stride keeps the pitch size and flips the direction; with ReversedRow, step r of the new walk is row rows-1-r of the old |
| Planes.R180Plane | modules/video_chroma/orient.c:82-91 | hflip over the bottom-up source gives dst[height-1-y][width-1-x] == src[y][x]; only the visible destination rectangle is written |
| Planes.TransposePlane | modules/video_chroma/orient.c:93-109 | dst[x][y] == src[y][x] in a destination src_height wide and src_width tall; only that rectangle is written |
| Planes.R270Plane | modules/video_chroma/orient.c:111-121 | transpose into the bottom-up destination gives dst[src_width-1-x][y] == src[y][x]; only that rectangle is written |
| Planes.R90Plane | modules/video_chroma/orient.c:123-133 | transpose of the bottom-up source gives dst[x][src_height-1-y] == src[y][x]; only that rectangle is written |
| Planes.AntiTransposePlane | modules/video_chroma/orient.c:135-146 | r270 of the bottom-up source gives dst[src_width-1-x][src_height-1-y] == src[y][x]; only that rectangle is written |
| Orientation.Target | modules/video_chroma/orient.c:55-146 | where each kind sends a source sample; a sample inside the source rectangle lands inside the destination rectangle, whose sides are swapped for the four axis-swapping kinds |
| Orientation.TargetInjective | modules/video_chroma/orient.c:55-146 | Target is one-to-one: two different source points never land on the same destination point |
| Orientation.TargetThenInverse | modules/video_chroma/orient.c:55-146 | sending a point by a kind and then by its inverse gives the point back and restores the dimensions; hflip, vflip, r180, transpose and antitranspose are their own inverses, r90 and r270 each other's |
| Planes.TransformedTwice | modules/video_chroma/orient.c:55-146 | applying a primitive and then the primitive of the inverse kind to its output gives back every visible source sample |
| Dispatch.SampleSize.Bytes | modules/video_chroma/orient.c:62-63 | the divisor turning a byte stride into a sample stride is 1, 2 or 4 |
| Dispatch.Descriptions | modules/video_chroma/orient.c:164-172 | every entry of a kind's row performs that kind, and the three entries work on 1, 2 and 4-byte samples |
| Dispatch.Apply | modules/video_chroma/orient.c:148-153 | a call through a table entry, with strides in bytes, leaves the destination holding the source transformed by the entry's kind, and writes nothing outside the destination rectangle |
| Negotiation.Open | modules/video_chroma/orient.c:257-331 | success exactly when the kind is not the identity, the output format equals the transformed input, the chroma is known with pixel size 1, 2 or 4, every plane is square-sampled for the axis-swapping kinds, and memory was obtained; ENOMEM exactly when everything before the allocation passed and it failed; on success plane 0 is the table entry matching the pixel size, planes 2 to 4 equal plane 0, and plane 1 is the 16-bit entry for NV12 and NV21 and plane 0 otherwise |
| Planes.PlaneFitsBuffer | modules/video_chroma/orient.c:186-190 | a plane handed over from offset 0 with a pitch no smaller than its visible width fits any buffer that reaches past the last visible sample of its last row, which is what the primitives require of the buffers Filter passes |
| Frames.TransformPlane | modules/video_chroma/orient.c:186-190 | one plane's primitive called with the width i_visible_pitch / i_pixel_pitch and i_visible_lines rows transforms that plane and leaves the rest of its buffer alone |
| Frames.Filter | modules/video_chroma/orient.c:180-197 | the result is the picture the allocator returned; src is released exactly once on both paths; when there is an output, every plane of src is transformed into it by its plane's primitive, nothing outside the written rectangles changes, and the properties of src are copied onto it once |
| MouseMapping.Mouse | modules/video_chroma/orient.c:199-255 | for each of the seven kinds, a point of the output picture maps to a point of the input picture (sides swapped for the axis-swapping kinds), and that point is sent back onto the output point by the kind's primitive |
| MouseMapping.MouseOfTarget | modules/video_chroma/orient.c:199-255 | mapping back the place a source sample was sent to gives the sample's own position |
| MouseMapping.MouseFindsSample | modules/video_chroma/orient.c:199-255 | after a primitive has run, the output sample under the pointer is the input sample under the mapped pointer |

## Left out

- Module registration (`vlc_module_begin` to `vlc_module_end`) and the `filter_ops` wiring at lines 323-338 are left out. They are plugin plumbing with no logic.
- `video_format_GetTransform`, `video_format_TransformBy`, `vlc_fourcc_GetChromaDescription`, `vlc_obj_malloc`, `filter_NewPicture`, `picture_Release` and `picture_CopyProperties` are not part of this model. They are defined elsewhere, and their outcomes are parameters or ghost updates.
- The `ORIENT_IS_SWAP` macro is not part of this model. `Orientation.IsSwap` is true for R90, R270, Transpose and AntiTranspose, the kinds whose primitives swap width and height.
- `PICTURE_PLANE_MAX` is defined in a header that is not part of this model. Its value is taken as 5.
- A chroma description's `plane_count` is modelled as the length of its plane list.
- Samples are opaque values, so byte content and endianness of 16 and 32-bit samples are not modelled. The sample size only divides the strides. The requirement that 8, 16 and 32-bit results agree is therefore not stated.
- `Planes.VFlipPlane`: the byte-level `memcpy` of `width << order` bytes is modelled as a copy of `width` samples. `ctz(bits / 8)` is not modelled.
- Raw pointers are not modelled:
  - source and destination are distinct arrays in place of `restrict` pointers;
  - a negative stride is a backward walk;
  - strides are required to be whole numbers of samples;
  - both buffers are required to hold their visible rectangle, which is what makes the C pointer arithmetic stay inside the buffers.
- Overflow of C `int` sizes and of `ptrdiff_t` stride products is not modelled. Integers are unbounded.
- The fields of `vlc_mouse_t` other than the x and y coordinates are not modelled. `Mouse` always succeeds.
- Concrete literal planes are not stated as separate lemmas; they are instances of the cell equations.
- Every picture is given its own plane buffers, distinct from those of every other picture. Shared or overlapping buffers between planes are not modelled.
