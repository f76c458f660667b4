# Water ripple simulation

This project models the ripple height field behind the animated water
background of the Ocean game (`components/WaterCanvas.tsx`) and proves
properties of it. The field is a damped-wave cellular automaton over two
`Int16Array` buffers of `width * height` cells, stored row-major with cell
(i, j) at index `j * width + i`. Three things act on it:

- `initSimulation` allocates both buffers, zero-filled.
- `addRipple` adds the ripple strength to a half-open 6 by 6 square of cells
  around the pointer. Cells that fail the guard `0 < i < width && 0 < j < height`
  are skipped.
- each animation frame runs `render`. It steps the field into the second
  buffer, swaps the two buffers, and shades the field into an RGBA image
  from its height gradient.

The project has three modules:

- `Int16Arith` (`int16_arith.dfy`) holds the integer semantics the code
  relies on: `Int16Array` stores (`Wrap16`), the `>>` shift on 32-bit values
  (`Shr`, floor division by `2^k`), the `v - (v >> d)` decay, and the clamp
  of a colour byte.
- `RippleField` (`ripple_field.dfy`) describes the field as values.
  `Rippled` is one impulse, `Stepped` is one propagation step and `Pixels` is
  one shading pass. Their lemmas state locality, bounds, 16-bit preservation
  and the output colour range.
- `WaterCanvas` (`water_canvas.dfy`) holds the imperative model.
  - `Ripple` is the state object with its two `array<int>` buffers.
    `AddRipple` is the nested injection loop, `Step` is the step loop (two
    stores per cell, as in the source) and `Swap` reassigns the two buffer
    fields.
  - `ShadePass` fills the image byte by byte.
  - `Canvas` is the component. Its `ripple` field is null until
    `InitSimulation` runs. Its `AddRipple` and `Render` do nothing while that
    field is null.

  Each method is proved against the matching `RippleField` function.

Modelling decisions:

- Grid coordinates `ix, iy` are integer inputs. The source derives them from
  window coordinates by floating-point scaling.
- The decay shift is a parameter `decay < 32`. The component uses
  `DECAY = 5`. No lower bound is needed: with a shift of 0 the decay gives 0.
- The four neighbour reads of the step stay inside the buffer. The
  preconditions of `StepCell` and the array accesses of `Ripple.Step` make
  this a proof obligation.
- The shading pass uses flat indices. At column 0 the left neighbour `i - 1`
  is the last cell of the previous row, and at the last column the right
  neighbour is the first cell of the next row. The model keeps this
  behaviour. A neighbour index outside `[0, size)` reads as height 0.
- The frame is shaded from the buffer that was active at the *start* of the
  frame, not from the newly stepped one. `render` destructures `buffer1` into
  a local variable before the swap and shades that local (lines 65 and 87-88).
  After the swap, that buffer is the inactive `buffer2`. The image therefore
  lags the simulation by one step. `Canvas.Render` states this:
  `image[..] == Pixels(old(ripple.buffer1[..]), ...)`.
- Pure decay does not drive every value to zero. `DecayFixedPoint` shows that
  `v - (v >> d) == v` exactly when `0 <= v < 2^d`. With `DECAY = 5`, positive
  heights up to 31 stay as they are (`SmallHeightsPersist`). The guarantee is the one in
  `DecayNonExpansive`: magnitude never grows, and negative values strictly
  shrink.

## Model

| member | source | states |
|---|---|---|
| Int16Arith.Wrap16 | components/WaterCanvas.tsx:71-72 | an `Int16Array` store yields a 16-bit value congruent to the stored number modulo 2^16; values already in range are stored unchanged |
| Int16Arith.Wrap16Unique | components/WaterCanvas.tsx:71-72 | the 16-bit range plus congruence modulo 2^16 determine the stored value uniquely |
| Int16Arith.Shr | components/WaterCanvas.tsx:71-72 | `x >> k` is the floor of `x / 2^k`: `r * 2^k <= x < (r + 1) * 2^k`, the sign is kept and `|r| <= |x|` |
| Int16Arith.DecayNonExpansive | components/WaterCanvas.tsx:72 | Decay's bound for 16-bit inputs: for a 16-bit v, `v - (v >> d)` never crosses zero, never exceeds `|v|`, stays 16-bit and strictly shrinks negative values |
| Int16Arith.Decay | components/WaterCanvas.tsx:72 | `v - (v >> d)` lies between 0 and v: it never crosses zero and never moves away from it |
| Int16Arith.DecayFixedPoint | components/WaterCanvas.tsx:72 | the decay leaves v unchanged exactly when `0 <= v < 2^d` |
| Int16Arith.ShrZero | components/WaterCanvas.tsx:72 | `x >> k` is 0 exactly for `0 <= x < 2^k` |
| Int16Arith.Clamp | components/WaterCanvas.tsx:92-94 | `min(255, max(0, x))` is a byte: x itself when x is in [0, 255], 0 below that range, 255 above it |
| Int16Arith.ClampMonotone | components/WaterCanvas.tsx:92-94 | the channel clamp preserves order |
| RippleField.CellIndex | components/WaterCanvas.tsx:48 | for `0 <= i < width` and `0 <= j < height`, the index `j * width + i` is inside the buffer, and `%` and `/` by width recover i and j |
| RippleField.CellOf | components/WaterCanvas.tsx:48 | every buffer index is `row * width + column` with the column below width and the row below height |
| RippleField.Rippled | components/WaterCanvas.tsx:45-51 | the field after one impulse has the same length, and 16-bit cells stay 16-bit |
| RippleField.RippledAt | components/WaterCanvas.tsx:45-51 | cell (i, j) becomes `Wrap16(old + strength)` exactly when it lies in `[ix-3, ix+3) x [iy-3, iy+3)` and passes `0 < i < width && 0 < j < height`; every other cell keeps its value |
| RippleField.RippleSparesBorder | components/WaterCanvas.tsx:47 | no impulse changes a cell of row 0 (index below width) or of column 0 (index divisible by width) |
| RippleField.RippleOffField | components/WaterCanvas.tsx:47 | an impulse whose square misses the writable cells leaves the field unchanged |
| RippleField.PartialRippleStart | components/WaterCanvas.tsx:45-46 | before the loops start, no cell has been written |
| RippleField.PartialRippleNext | components/WaterCanvas.tsx:47-48 | one visit of the inner loop writes only cell (i, j), once, and only when the guard holds |
| RippleField.PartialRippleRow | components/WaterCanvas.tsx:45-46 | finishing row j is the same as starting row j + 1 |
| RippleField.PartialRippleEnd | components/WaterCanvas.tsx:45-51 | after the last row, the whole square has been written once: the result is Rippled |
| RippleField.PreDecay | components/WaterCanvas.tsx:71 | the first store of the step is a 16-bit value congruent modulo 2^16 to `((sum of the four neighbours) >> 1) - old buffer2[i]` |
| RippleField.StepCell | components/WaterCanvas.tsx:71-72 | the new height of an interior index is 16-bit and lies between 0 and the first-stored value PreDecay |
| RippleField.Stepped | components/WaterCanvas.tsx:70-73 | the step keeps the buffer length and leaves every index outside `[width, size - width)`, i.e. the first and the last row, unchanged |
| RippleField.PartialStepNext | components/WaterCanvas.tsx:70-72 | visiting index i of the step loop gives it its new value, from an old value not yet overwritten, and changes no other index |
| RippleField.PartialStepEnds | components/WaterCanvas.tsx:70 | before the step loop nothing is written; once it passes `size - width` the buffer is Stepped |
| RippleField.StepCellStore | components/WaterCanvas.tsx:72 | storing `v - (v >> d)` back into the 16-bit cell that holds the first-stored value leaves exactly StepCell there |
| RippleField.SteppedInt16 | components/WaterCanvas.tsx:71-72 | one step keeps every cell a 16-bit value, and each stepped cell is no further from zero than its first-stored value |
| RippleField.SteppedStill | components/WaterCanvas.tsx:70-73 | stepping a still (all-zero) field leaves it all zero |
| RippleField.StepCellLocal | components/WaterCanvas.tsx:71 | a stepped cell depends only on its four flat neighbours in buffer1 and on its own old buffer2 value, so the visiting order does not matter |
| RippleField.Shade | components/WaterCanvas.tsx:87-89 | the shade is 0 where both neighbour differences vanish, and for 16-bit heights it is within `[-2 * 65535, 2 * 65535]` |
| RippleField.Channel | components/WaterCanvas.tsx:92-95 | every channel is a byte, and channel 3 (alpha) is 255 |
| RippleField.Pixels | components/WaterCanvas.tsx:82-96 | the image has four bytes per cell |
| RippleField.PixelAt | components/WaterCanvas.tsx:91-95 | byte c of pixel p is at index `4 * p + c` and holds that pixel's channel c |
| RippleField.PixelsValid | components/WaterCanvas.tsx:92-95 | every byte is in [0, 255], every alpha is 255, and every pixel has R <= G <= B |
| RippleField.PixelsStill | components/WaterCanvas.tsx:80-95 | where the gradient is zero, the pixel is the still-water colour (5, 30, 80, 255) |
| WaterCanvas.SmallHeightsPersist | components/WaterCanvas.tsx:17 | with `DECAY = 5`, every height in `[0, 32)` is left unchanged by the decay |
| WaterCanvas.Ripple.constructor | components/WaterCanvas.tsx:27-34 | both buffers are fresh and distinct, have `width * height` cells, and every cell is 0 |
| WaterCanvas.Ripple.AddRipple | components/WaterCanvas.tsx:43-51 | buffer1 becomes Rippled of its old contents, buffer2 is unchanged, and every cell is still 16-bit |
| WaterCanvas.Ripple.Step | components/WaterCanvas.tsx:70-73 | buffer2 becomes Stepped of buffer1 and the old buffer2, buffer1 is unchanged, and every cell is still 16-bit |
| WaterCanvas.Ripple.Swap | components/WaterCanvas.tsx:76-77 | the two buffer fields exchange their arrays; no cell changes |
| WaterCanvas.ShadePass | components/WaterCanvas.tsx:82-96 | returns a fresh image equal to Pixels of the field |
| WaterCanvas.Canvas.constructor | components/WaterCanvas.tsx:6-12 | the component starts with no simulation |
| WaterCanvas.Canvas.InitSimulation | components/WaterCanvas.tsx:20-35 | with a drawing surface, installs a fresh zero-filled simulation of the given size; without one, nothing changes |
| WaterCanvas.Canvas.AddRipple | components/WaterCanvas.tsx:37-52 | does nothing when no simulation exists; otherwise buffer1 becomes Rippled and buffer2 is unchanged |
| WaterCanvas.Canvas.Render | components/WaterCanvas.tsx:63-96 | without a simulation, returns no image; otherwise the buffers swap roles, the new buffer1 is Stepped of the old buffers, the new buffer2 is the untouched old buffer1, and the image is Pixels of the old buffer1 |

## Left out

- DOM and scheduling are not modelled (lines 54-62, 66-67 and 98-139). This covers React refs and effects, `getContext`, `createImageData`/`putImageData`, `requestAnimationFrame` and the listener wiring. `Render` models one frame. The drawing surface appears only as the `hasCanvas` flag of `InitSimulation`.
- `createImageData` throws on a zero-area surface. The model does not include that exception. `Render` on an empty grid returns an empty image.
- The window-to-grid coordinate mapping is floating-point (lines 15-16 and 41-42). The model takes integer `ix, iy` instead.
- The mouse and touch handlers and their strengths (`STRENGTH`, and three times that on click; lines 105-111) are input wiring. They only call `addRipple`, which is modelled.
- The shading loop computes `x = i % width` and `y = floor(i / width)` (lines 83-84) and never uses them. The model leaves them out.
- `App.tsx`, `services/geminiService.ts` and `types.ts` are not part of this model. They hold UI layout, timers, a call to an external text-generation service, and static type and bait declarations.
- Creature spawning, weighted selection, bait modifiers, hit-testing, boss handling, zone tint easing, ambient ripples and sprite compositing appear in none of the modelled files. The model omits them.
- The model makes no claim that repeated steps converge. The propagation term can amplify a cell, and `DecayFixedPoint` shows that small positive heights survive the decay indefinitely.
- RippleField.Stepped: its contract gives only the length and the unchanged first and last rows. The interior contents are given by its definition through StepCell. SteppedInt16, SteppedStill and StepCellLocal state their properties.
- RippleField.Pixels: its contract gives only the length. The contents are given by its definition through Channel. PixelAt, PixelsValid and PixelsStill state their properties.
- RippleField.Pixels: a neighbour index outside the buffer reads as height 0 (the rule lives in RippleField.At). In the source such a read gives `undefined`, the shade becomes `NaN`, and storing `NaN` into the `Uint8ClampedArray` gives 0. The source therefore draws every pixel of the first and the last row as (0, 0, 0, 255). The model instead shades those rows with the missing neighbour taken as height 0.
- Int16Arith.Shr: requires a 32-bit operand and a shift count below 32. It does not model the `ToInt32` wrap or the shift-count masking of JavaScript `>>`. Every operand in the step fits (four 16-bit values summed, or one 16-bit value), and the counts are 1 and 5.
- WaterCanvas.Ripple.AddRipple: the strength is an integer. JavaScript would truncate a fractional sum on the `Int16Array` store. Both strengths the component uses (512 and 1536) are integers.

