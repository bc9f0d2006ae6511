# taffy-wasm: CompactLength helpers, import rewriting and binding logic

This project models the host-facing part of taffy-wasm, the WebAssembly bindings of the
taffy flexbox/grid layout engine, and proves properties of that model.

- `compact_length.dfy` (module `CompactLength`) covers the TypeScript CompactLength helpers
  that the build script emits. A CompactLength is a BigInt. The helpers are the eight tag
  constants, the eight constructors (`length`, `percent`, `auto`, `fr`, `minContent`,
  `maxContent`, `fitContentPx`, `fitContentPercent`) and the two readers `getTag` and
  `getValue`. A payload constructor builds the natural word `(f32 bits << 32) | TAG`, and
  `auto`, `minContent` and `maxContent` build `BigInt(TAG)`; each then swaps the word's two
  32-bit halves. The word handed out therefore holds the tag in its high half and
  the payload in its low half.
- `bigint_bits.dfy` (module `BigIntBits`) gives the meaning of the BigInt operators the helpers
  use, on non-negative values. `<<` multiplies by a power of two, `>>` divides by one, and
  `&` and `|` work bit by bit. Two lemmas reduce masking and OR-ing disjoint bits to arithmetic.
- `import_extensions.dfy` (module `ImportExtensions`) covers the per-match closure of
  `fix_import_extensions`. It appends `.js` to a relative import path unless the path's last
  `.` comes after its last `/`.
- `taffy_wasm.dfy` (module `TaffyWasm`) covers the Rust bindings:
  - the `TaffyTree` wrapper's `new_leaf`, `add_child` and `update_style`, as a class over an
    abstract map from node id to style;
  - the u32 ↔ u64 handle conversions;
  - the measure closure of `compute_layout_with_measure`, as functions.
- `optional.dfy` holds the `Option` datatype.

The readers are modelled as the code is written. The comments say the readers "rotate right
32" to undo the constructors' swap. The code instead rebuilds `(high32 << 32) | low32`, which
is its input unchanged. So `getTag` returns the low byte of the payload, and `getValue`
returns the tag reinterpreted as f32 bits. The comments at taffy-wasm/build.rs:102, 104, 111
and 113 describe readers that undo the swap. The model follows the code and records the difference under "## Findings".
`DecodeTag` and `DecodePayloadBits` are the readers as the comments describe them, and the
round trip is proved for those.

Rust's `rfind` returns byte offsets, while the model uses character positions. Both increase
with the position in the string, so the closure's test `dot_idx > slash_idx` has the same
outcome either way.

## Model

| member | source | states |
|---|---|---|
| `BigIntBits.AndLowMask` | taffy-wasm/build.rs:44-45 | masking a BigInt with `2^k - 1` (as `& 0xFFFFFFFFn`, `& 0xFFn` do) gives its remainder modulo `2^k` |
| `BigIntBits.OrDisjoint` | taffy-wasm/build.rs:40-41 | OR-ing a multiple of `2^k` with a number below `2^k` is their sum, so no bit of either is disturbed |
| `BigIntBits.ShiftLeft` | taffy-wasm/build.rs:40-46 | `x << k` leaves the low `k` bits clear and holds `x` above them |
| `BigIntBits.ShiftRight` | taffy-wasm/build.rs:44-46 | `x >> k` is the largest `r` with `r * 2^k <= x` |
| `BigIntBits.BitAnd` | taffy-wasm/build.rs:44-45 | `x & y` is at most each operand |
| `BigIntBits.BitOr` | taffy-wasm/build.rs:46 | `x OR y` lies between the larger operand and the sum of both |
| `CompactLength.TagsDistinctBytes` | taffy-wasm/build.rs:20-27 | the eight tag constants are pairwise distinct and each is below 256 |
| `CompactLength.SwapHalves` | taffy-wasm/build.rs:42-46 | the encoders' swap moves the low 32 bits up and the next 32 bits down; its result is below 2^64 for every BigInt |
| `CompactLength.SwapHalvesInvolution` | taffy-wasm/build.rs:42-46 | on words below 2^64 the swap is its own inverse |
| `CompactLength.Tagged` | taffy-wasm/build.rs:39-41 | OR-ing `bits << 32n` with `TAG` has `bits` as its high half and `TAG` as its low half |
| `CompactLength.EncodePayload` | taffy-wasm/build.rs:38-47 | a payload constructor returns `TAG * 2^32 + bits`: tag in the high half, payload bits in the low half, below 2^64 |
| `CompactLength.EncodeBare` | taffy-wasm/build.rs:57-62 | a constructor without payload returns `TAG * 2^32`, whose low half is zero |
| `CompactLength.Length` | taffy-wasm/build.rs:38-47 | `length(x)` has high half `LENGTH_TAG` and low half the bits of `x` |
| `CompactLength.Percent` | taffy-wasm/build.rs:49-55 | `percent(x)` has high half `PERCENT_TAG` and low half the bits of `x` |
| `CompactLength.Auto` | taffy-wasm/build.rs:57-62 | `auto()` has high half `AUTO_TAG` and low half 0 |
| `CompactLength.Fr` | taffy-wasm/build.rs:64-70 | `fr(x)` has high half `FR_TAG` and low half the bits of `x` |
| `CompactLength.MinContent` | taffy-wasm/build.rs:72-77 | `minContent()` has high half `MIN_CONTENT_TAG` and low half 0 |
| `CompactLength.MaxContent` | taffy-wasm/build.rs:79-84 | `maxContent()` has high half `MAX_CONTENT_TAG` and low half 0 |
| `CompactLength.FitContentPx` | taffy-wasm/build.rs:86-92 | `fitContentPx(x)` has high half `FIT_CONTENT_PX_TAG` and low half the bits of `x` |
| `CompactLength.FitContentPercent` | taffy-wasm/build.rs:94-100 | `fitContentPercent(x)` has high half `FIT_CONTENT_PERCENT_TAG` and low half the bits of `x` |
| `CompactLength.Unrotate` | taffy-wasm/build.rs:104-107 | the readers' "unrotate" step returns its argument modulo 2^64, not its halves swapped |
| `CompactLength.UnrotateIsIdentity` | taffy-wasm/build.rs:105-107 | the "unrotate" step leaves a word unchanged exactly when the word is below 2^64 |
| `CompactLength.GetTag` | taffy-wasm/build.rs:103-109 | `getTag(v)` is `v & 0xFF`, the low byte of the word as handed out |
| `CompactLength.GetValueBits` | taffy-wasm/build.rs:111-117 | the bits `getValue` reinterprets are bits 32..63 of its argument, always a valid Uint32 |
| `CompactLength.GetValueBitsIsHighHalf` | taffy-wasm/build.rs:114-117 | on words below 2^64, `getValue` reads `v >> 32n` |
| `CompactLength.ReadersOnPayloadWord` | taffy-wasm/build.rs:103-117 | for a payload constructor's word, `getTag` returns the payload's low byte and `getValue` returns the tag |
| `CompactLength.ReadersOnBareWord` | taffy-wasm/build.rs:103-117 | for `auto`/`minContent`/`maxContent` words, `getTag` returns 0 and `getValue` returns the tag |
| `CompactLength.GetTagOfAutoIsNotAutoTag` | taffy-wasm/build.rs:103-109 | `getTag(auto())` is 0, which differs from `AUTO_TAG` |
| `CompactLength.GetTagOfLengthIsPayloadByte` | taffy-wasm/build.rs:103-117 | `getTag(length(x))` is 0 when the low byte of `x`'s bits is 0 (as for 1.0), and `getValue` returns `LENGTH_TAG` as bits |
| `CompactLength.DecodeTag` | taffy-wasm/build.rs:102-108 | the corrected tag reader (swap back, then mask) returns the low byte of the word's high half |
| `CompactLength.DecodePayloadBits` | taffy-wasm/build.rs:111-117 | the corrected value reader (swap back, then shift) returns the word's low half |
| `CompactLength.DecodeEncodePayload` | taffy-wasm/build.rs:37-117 | the corrected readers recover the tag and payload of every word the two kinds of constructor build, with payload 0 for no-payload tags |
| `CompactLength.EncodeDecodeRoundTrip` | taffy-wasm/build.rs:37-121 | each of the eight constructors round-trips through the corrected readers bit for bit |
| `ImportExtensions.LastIndexOf` | taffy-wasm/build.rs:162-164 | `rfind(c)` is `None` iff `c` is absent; otherwise it is the position of a `c` with no `c` after it |
| `ImportExtensions.HasExtension` | taffy-wasm/build.rs:162-164 | the closure's test needs a `.`; without a `/` it holds iff a `.` is present; a path ending in `/` fails it |
| `ImportExtensions.HasExtensionIff` | taffy-wasm/build.rs:161-165 | the closure's test holds iff some `.` in the path has no `/` after it |
| `ImportExtensions.RewriteImportPath` | taffy-wasm/build.rs:161-171 | the path is returned unchanged iff it has an extension, otherwise with `.js` appended; the result always has an extension |
| `ImportExtensions.JsSuffixGivesExtension` | taffy-wasm/build.rs:170 | any path with `.js` appended passes the has-extension test |
| `ImportExtensions.ReplaceImport` | taffy-wasm/build.rs:156-172 | the replacement is prefix, path and suffix, with `.js` after the path exactly when it has no extension |
| `ImportExtensions.RewriteIdempotent` | taffy-wasm/build.rs:161-171 | applying the rewrite to an already rewritten import changes nothing |
| `ImportExtensions.RewriteDotSlash` | taffy-wasm/build.rs:141-143 | `./Style` becomes `./Style.js` |
| `ImportExtensions.RewriteDotDotSlash` | taffy-wasm/build.rs:141-143 | `../Style` becomes `../Style.js` |
| `ImportExtensions.RewriteKeepsJs` | taffy-wasm/build.rs:141-143 | `./Style.js` is left as it is |
| `TaffyWasm.Narrow` | taffy-wasm/src/lib.rs:68 | `as u32` gives a value below 2^32 that agrees with the id modulo 2^32 |
| `TaffyWasm.Widen` | taffy-wasm/src/lib.rs:73-74 | `h as u64` keeps the handle's value, which stays below 2^32 |
| `TaffyWasm.NarrowWiden` | taffy-wasm/src/lib.rs:68-74 | a u32 handle survives `u32 -> u64 -> u32` unchanged |
| `TaffyWasm.NarrowKeepsLowHalf` | taffy-wasm/src/lib.rs:68 | `as u32` keeps an id iff it is below 2^32; two ids share a handle iff their low 32 bits agree |
| `TaffyWasm.EffectiveSpace` | taffy-wasm/src/lib.rs:117-122 | a known dimension gives `Definite(known)`, otherwise the parent's available space is used |
| `TaffyWasm.Constraints` | taffy-wasm/src/lib.rs:120-125 | width and height are each chosen by that rule |
| `TaffyWasm.ConstraintsAxesIndependent` | taffy-wasm/src/lib.rs:120-125 | each axis of the constraints depends only on that axis's known and available values |
| `TaffyWasm.PropertyNumber` | taffy-wasm/src/lib.rs:147-151 | a property gives its number, and 0 when it is missing, non-numeric or its lookup throws |
| `TaffyWasm.ElementNumber` | taffy-wasm/src/lib.rs:157-159 | an array element gives its number, and 0 when it is missing or non-numeric |
| `TaffyWasm.ReadSize` | taffy-wasm/src/lib.rs:144-164 | an object result gives its `width`/`height` properties; a non-object array gives elements 0 and 1; anything else gives 0 by 0 |
| `TaffyWasm.ReadSizeAxesIndependent` | taffy-wasm/src/lib.rs:146-153 | an object's width does not depend on its `height` property, nor its height on `width` |
| `TaffyWasm.ContextData` | taffy-wasm/src/lib.rs:114-115 | the callback receives the node's context data, or `null` when the node has none |
| `TaffyWasm.MeasureLeaf` | taffy-wasm/src/lib.rs:107-168 | a failed serialisation or a throwing callback gives 0 by 0; otherwise the callback's result, read as above |
| `TaffyWasm.TaffyTree.constructor` | taffy-wasm/src/lib.rs:51-53 | a new tree has no nodes |
| `TaffyWasm.TaffyTree.NewLeaf` | taffy-wasm/src/lib.rs:57-69 | whenever an id is left, a leaf is created with the decoded style or `Style::default()`; the returned handle widens back to the new node's id |
| `TaffyWasm.TaffyTree.AddChild` | taffy-wasm/src/lib.rs:72-76 | the child is appended to the parent's children iff both handles name nodes; otherwise nothing changes |
| `TaffyWasm.TaffyTree.UpdateStyle` | taffy-wasm/src/lib.rs:79-91 | an undecodable style, or a handle naming no node, leaves every style unchanged; otherwise only that node's style is replaced |
| `TaffyWasm.DecodeErrorPolicy` | taffy-wasm/src/lib.rs:57-91 | on a fresh tree, a leaf made from an undecodable style has the default style; an undecodable update keeps it; a decodable update replaces it |

## Left out

- `_f32ToBits` and the `DataView` reinterpretation in `getValue` (taffy-wasm/build.rs:30-35, 118-120) depend on JS number to f32 rounding. The payload is an opaque 32-bit pattern.
- Negative BigInts passed to `getTag`/`getValue` are not modelled. A CompactLength is a `nat` here.
- The ts-rs exports, writing `CompactLength.ts`, the directory loop and file rewriting of `fix_import_extensions`, and the regular expression engine (taffy-wasm/build.rs:8-11, 125-153, 174-181) are build-time I/O. Only the per-match closure is modelled, for arbitrary strings.
- The Rust-side `CompactLength` of the taffy crate is not part of this model.
- wasm_bindgen glue, the panic hook and console logging (taffy-wasm/src/lib.rs:10-26, 62-63, 83, 89, 95, 99, 127-131, 137) have no effect on the modelled results.
- `compute_layout`, the layout engine's call of the measure closure, and the layout getters (taffy-wasm/src/lib.rs:94-100, 103-105, 170, 186-204) belong to the layout algorithm, an external collaborator.
- `set_node_context`/`remove_node_context` (taffy-wasm/src/lib.rs:173-184) are left out. The measure closure takes the node's context as an `Option` parameter instead.
- RefCell borrow checks are runtime checks and are not modelled.
- JS reflection and typing rules are not modelled. `is_object`, `is_array`, `as_f64`, property lookups and array elements are fields of an abstract value. Real JS arrays are objects, so the array branch is reached only for values the model marks as non-object arrays.
- `serde_wasm_bindgen` is external. Style decoding is an `Option<Style>` given to the methods. Constraint serialisation and the JS callback are function parameters of `MeasureLeaf`.
- Numbers are opaque values. The `f64 -> f32` casts in the measure closure (taffy-wasm/src/lib.rs:150-159) are the identity on them.
- The taffy tree is reduced to styles and child lists. Parent pointers, dirty marking and slotmap key versions are not modelled. The model chooses to hand out node ids in order from 0, so every id it hands out is below 2^32; taffy's slot map is not modelled. `new_leaf` reports the panic of `unwrap()` as `None` once 2^32 ids are used.
- TaffyWasm.TaffyTree.AddChild: the panic of `unwrap()` on an unknown parent or child is modelled as `ok == false` with the tree unchanged. What taffy may have written before panicking is not modelled.

## Findings

| source | as written | input that shows it | evidently intended | confidence | as-written member | corrected member |
|---|---|---|---|---|---|---|
| taffy-wasm/build.rs:105-108 | `getTag` "unrotates" with `high32 << 32n` OR-ed with `low32`, the input unchanged, then masks the low byte | `getTag(auto())`: `auto()` is `3 * 2^32`, and `getTag` returns 0 instead of `AUTO_TAG` (3) | rebuild `low32 << 32n` OR-ed with `high32` as the comment says, so that `getTag(auto()) == AUTO_TAG` | high, not executed | `CompactLength.GetTagOfAutoIsNotAutoTag` | `CompactLength.EncodeDecodeRoundTrip` |
| taffy-wasm/build.rs:114-117 | `getValue` reads bits 32..63 of the word as handed out, which hold the tag | `getValue(length(1.0))` reinterprets `LENGTH_TAG` (bits 0x00000001) as f32, not 0x3F800000 | read the low half of the word as handed out, so that `getValue(length(x))` returns `x` | high, not executed | `CompactLength.GetTagOfLengthIsPayloadByte` | `CompactLength.DecodePayloadBits` |
