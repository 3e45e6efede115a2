# BMP header repair, modelled in Dafny

This project models the core of a small BMP repair tool for CTF challenges. The tool
reads a Microsoft BMP file: a 14-byte BITMAPFILEHEADER followed by a 40-byte
BITMAPINFOHEADER. It repairs the header in one ordered pass and can then generate
dimension variants of the repaired file.

The pass makes six corrections, in this order:

1. A true-colour image (more than 8 bits per pixel) gets pixel offset 54.
2. The DIB header size becomes 40.
3. The file size field becomes the buffer length.
4. The width is recomputed from the height.
5. The height is recomputed from the width.
6. Bytes past the declared pixel array are cut off and the file size is rewritten.
   A file that is too short raises the truncation warning instead.

The variant generator starts from the repaired bytes. It makes at most two independent
copies: one with the height that the current width's rows account for, and one with the
width that the current height's rows account for. Each copy gets its own length in the
file size field.

The project has five modules:

- `HeaderView` (`header.dfy`) is the header view.
  - Bytes are integers 0..255.
  - `ReadU16` and `ReadU32` are little-endian reads, modelling `u16` and `u32`.
  - `LittleEndian` and `ToLittleEndian` give the value of a byte string of any length and the encoding of a value to any length. They are a reference definition, and lemmas prove the fixed-width reads and writes agree with them.
  - `WriteU32` is the little-endian write. `PatchU32` performs it in place on an array, modelling `p32`.
  - `ParseHeader` decodes the six header fields.
  - `RowStride` is the padded row length.
- `RepairEngine` (`repair.dfy`) holds the repair pass.
  - `Fix` is the pass as a function of the input bytes. It is built from one function per correction.
  - `Repair` is the pass as the tool runs it: it patches a fresh byte array in place, updates the header field by field, and takes a shorter copy when truncating.
  - `Repair` is proved to compute `Fix`.
- `RepairProperties` (`repair_properties.dfy`) proves what the pass guarantees, stated over `Fix`.
- `VariantGenerator` (`variants.dfy`) holds the variant generator.
  - `Variants` is the generation as a function.
  - `BruteVariants` builds each copy in a fresh array and is proved to compute `Variants`.
  - The lemmas say what a variant is and exactly when each one is generated.
- `FixThenVariants` (`fix_then_variants.dfy`) covers the `--brute` run: the pass followed by generation on its result.

Errors are values of `Result`:

- `NotBmp` is the missing "BM" signature.
- `InvalidBpp` is fewer than 8 bits per pixel.
- `StructError` is what Python's `struct` raises: a read or write past the end of the buffer, or a value outside 0..2^32-1.
- `DivisionByZero` is the width variant's division when a pixel is narrower than one byte.

The tool has no minimum-length or range checks of its own. Short buffers, lengths of 2^32
or more, and a pixel offset past the end of the file are therefore handled as the code
handles them, not excluded by preconditions:

- A negative pixel byte count makes any inferred width or height negative, so storing it fails.
- A cut below byte 6 makes the file size write fail.

Python's `//` and `%` floor their results. Every divisor in the code is positive, so they
agree with Dafny's Euclidean operators, including for a negative pixel byte count. The
height is read unsigned, so the `abs` in the expected length is the identity and is not
modelled.

Three behaviours of the code are easy to misread:

- **No length check of its own.** In `fix`, a buffer shorter than 30 bytes fails inside `struct` when the header is read, after the signature check (bmp_ctf_tool.py:43-46). Here that is `StructError`. The ordering holds for `fix` only: `main` decodes the raw header before `fix` runs (bmp_ctf_tool.py:145-146), so a short file run from the command line fails in that read whatever its signature. The command line is not modelled.
- **The bits-per-pixel guard.** It runs after the first three corrections and only rejects `bpp // 8 == 0`, so 12 bits per pixel is accepted.
- **A consistent file is not always returned unchanged.** A file whose header already agrees with its length comes back unchanged only when its width equals the width its padded row length determines (`FixKeepsConsistent`). A width whose row padding is a whole pixel or more is widened (`FixWidensPaddedWidth`). For example, width 11 at 24 bits per pixel has 36-byte rows and becomes width 12.

## Model

| member | source | states |
|---|---|---|
| HeaderView.ReadU16 | bmp_ctf_tool.py:18 | the value read is below 2^16, with the byte at o as its low byte and the byte at o+1 as its high byte |
| HeaderView.ReadU32 | bmp_ctf_tool.py:19 | the value read is an unsigned 32-bit integer |
| HeaderView.EncodeU32 | bmp_ctf_tool.py:20 | a 32-bit value is stored as exactly four bytes |
| HeaderView.ReadEncodes | bmp_ctf_tool.py:19-20 | the four bytes at an offset are the encoding of the value read there |
| HeaderView.ReadOfEncode | bmp_ctf_tool.py:19-20 | bytes that encode v read back as v |
| HeaderView.ToLittleEndian | bmp_ctf_tool.py:20 | encoding to n bytes yields exactly n bytes |
| HeaderView.LittleEndianBound | bmp_ctf_tool.py:18-19 | the little-endian value of n bytes is below 256^n |
| HeaderView.LittleEndianRoundTrip | bmp_ctf_tool.py:18-20 | encoding the little-endian value of a byte string to its own length gives the string back |
| HeaderView.ToLittleEndianRoundTrip | bmp_ctf_tool.py:18-20 | a value below 256^n reads back unchanged from its n-byte little-endian encoding |
| HeaderView.ReadU16IsLittleEndian | bmp_ctf_tool.py:18 | the 16-bit read is the little-endian value of the two bytes at the offset |
| HeaderView.ReadU32IsLittleEndian | bmp_ctf_tool.py:19 | the 32-bit read is the little-endian value of the four bytes at the offset |
| HeaderView.EncodeU32IsLittleEndian | bmp_ctf_tool.py:20 | the 32-bit write stores the 4-byte little-endian encoding of the value |
| HeaderView.WriteU32 | bmp_ctf_tool.py:20 | a packed write keeps the length, reads back as the value written, and leaves every byte outside o..o+3 unchanged |
| HeaderView.WriteReadU32 | bmp_ctf_tool.py:19-20 | writing back the value just read leaves the buffer unchanged |
| HeaderView.PatchU32 | bmp_ctf_tool.py:20 | the in-place write leaves the array holding exactly the bytes WriteU32 describes |
| HeaderView.At | bmp_ctf_tool.py:24-32 | every 32-bit field lies inside the first 30 bytes |
| HeaderView.Header.With | bmp_ctf_tool.py:50-74 | setting one header field gives it the new value and keeps every other field and the bits per pixel |
| HeaderView.ParseHeader | bmp_ctf_tool.py:24-32 | the five 32-bit fields decode below 2^32 and the bits per pixel below 2^16 |
| HeaderView.ParseHeaderReadsOnlyFields | bmp_ctf_tool.py:24-32 | the decoded header depends only on bytes 2-5, 10-25 and 28-29 |
| HeaderView.ParseAfterWrite | bmp_ctf_tool.py:20-32 | a packed write at a field's offset changes that field of the decoded header to the value written and no other field |
| HeaderView.RowStride | bmp_ctf_tool.py:21 | a row length is a multiple of 4, at least width*(bpp//8), and less than 4 bytes above it |
| HeaderView.StrideRoundTrip | bmp_ctf_tool.py:21 | with at most 4 bytes per pixel, the width taken back from a 4-aligned row length has that row length as its stride |
| HeaderView.StableWidth | bmp_ctf_tool.py:21 | the width taken back from a width's own stride equals it exactly when the row padding is less than one pixel |
| RepairEngine.Repair | bmp_ctf_tool.py:41-91 | the in-place pass over a fresh array returns exactly what Fix specifies, errors included |
| RepairEngine.CorrectInPlace | bmp_ctf_tool.py:50-56 | the in-place steps 1 to 3 leave the array and the header as the functional steps do, or fail with the same error |
| RepairEngine.ReshapeInPlace | bmp_ctf_tool.py:63-82 | the in-place steps 4 to 6 return what the functional steps return |
| RepairEngine.TruncateInPlace | bmp_ctf_tool.py:76-82 | the shorter copy and its file size field are what Truncate specifies |
| RepairProperties.StoreKeeps | bmp_ctf_tool.py:50-74 | storing a field in the buffer and in the header keeps the two in agreement, keeps the length, and changes only rewritable bytes and that one header field |
| RepairProperties.StepKeeps | bmp_ctf_tool.py:50-74 | any step that keeps the state or stores one field preserves that agreement |
| RepairProperties.CorrectOffsetStep | bmp_ctf_tool.py:50-51 | step 1 stores at most the pixel offset, and a true-colour image ends with offset 54 |
| RepairProperties.CorrectDibSizeStep | bmp_ctf_tool.py:52-53 | step 2 stores at most the DIB size and ends with 40 |
| RepairProperties.CorrectFileSizeStep | bmp_ctf_tool.py:55-56 | step 3 stores at most the file size and ends with the buffer length |
| RepairProperties.InferWidthStep | bmp_ctf_tool.py:63-68 | step 4 stores at most the width |
| RepairProperties.InferHeightStep | bmp_ctf_tool.py:70-74 | step 5 stores at most the height |
| RepairProperties.CorrectEffect | bmp_ctf_tool.py:50-56 | steps 1 to 3 change exactly the offset (when true-colour), the DIB size and the file size, and the buffer still decodes to the header |
| RepairProperties.CorrectOutcome | bmp_ctf_tool.py:50-56 | steps 1 to 3 fail exactly when the file size must be rewritten and the length does not fit 32 bits, and then with a struct error |
| RepairProperties.ReshapeFailure | bmp_ctf_tool.py:63-82 | steps 4 to 6 can only fail with a struct error |
| RepairProperties.InferWidthValue | bmp_ctf_tool.py:63-68 | step 4 changes the width exactly to the nonzero whole-pixel count of 4-aligned rows the height divides the pixel bytes into, and never changes it otherwise |
| RepairProperties.InferHeightValue | bmp_ctf_tool.py:70-74 | step 5 changes the height exactly to the nonzero number of stride-long rows in the pixel bytes, and never changes it otherwise |
| RepairProperties.FixRejects | bmp_ctf_tool.py:43-61 | the pass returns NotBmp exactly when the signature is missing, and InvalidBpp exactly for a signed header of fewer than 2^32 bytes with bpp//8 == 0 |
| RepairProperties.FixRestoresHeader | bmp_ctf_tool.py:50-80 | after a successful pass: dib_size is 40; offset is 54 when bpp > 8 and the input's own offset otherwise; bpp is unchanged; the file size in the header and in the bytes is the final length; the bytes decode to the returned header when they are at least 30 bytes long, and every field the bytes still hold reads as the returned header's value |
| RepairProperties.TruncatedFields | bmp_ctf_tool.py:76-80 | after truncation, every 32-bit field the cut buffer still holds reads as the returned header's value |
| RepairProperties.FixTruncation | bmp_ctf_tool.py:76-83 | the buffer never grows; a longer buffer is cut to exactly the expected length; the warning is raised exactly when the input is shorter; without it the pixel bytes are exactly stride times height; outside the rewritable fields every kept byte is the input's |
| RepairProperties.FixWidth | bmp_ctf_tool.py:63-68 | the final width differs from the input's only when the input's height splits the pixel bytes into 4-aligned rows, and it is then their nonzero pixel count; whenever that count is nonzero it is the final width |
| RepairProperties.FixHeight | bmp_ctf_tool.py:70-74 | the final height differs from the input's only when the final width's stride divides the pixel bytes, and it is then their nonzero row count; whenever that count is nonzero it is the final height |
| RepairProperties.UntruncatedPixels | bmp_ctf_tool.py:76-91 | when the warning is raised, the returned pixel byte count is the one steps 4 and 5 worked on |
| RepairProperties.UntruncatedHeight | bmp_ctf_tool.py:70-83 | when the warning is raised, the final height is the number of final-width rows in the pixel bytes whenever that is a nonzero whole number |
| RepairProperties.FixSettlesHeight | bmp_ctf_tool.py:70-83 | after any successful pass, the final stride divides the pixel bytes into the final height or there are no pixel bytes |
| RepairProperties.FixNegativePixels | bmp_ctf_tool.py:58-74 | when the offset lies past the end, the final height does not split the negative pixel byte count into 4-aligned rows |
| RepairProperties.TruncateKeeps | bmp_ctf_tool.py:77-80 | truncation keeps width and height, never grows the buffer, and keeps every byte from offset 6 on |
| RepairProperties.KeptFieldBytes | bmp_ctf_tool.py:77-80 | a dimension field the pass left at the input's value still holds the input's four bytes after truncation |
| RepairProperties.FixKeepsDimensionBytes | bmp_ctf_tool.py:63-80 | a width or height the pass does not change keeps its four input bytes, wherever the final buffer still reaches them |
| RepairProperties.DimensionBytesFrom | bmp_ctf_tool.py:76-80 | the same guarantee, stated for the state just before truncation and its result |
| RepairProperties.ConsistentCorrect | bmp_ctf_tool.py:50-56 | steps 1 to 3 change nothing in a file whose header already agrees with it |
| RepairProperties.InferWidthOnExactRows | bmp_ctf_tool.py:63-68 | on pixel bytes that exactly fill the declared rectangle, step 4 sets the width to the largest width with the same stride |
| RepairProperties.InferHeightOnExactRows | bmp_ctf_tool.py:70-74 | on pixel bytes that exactly fill the declared rectangle, step 5 keeps the height |
| RepairProperties.TruncateExact | bmp_ctf_tool.py:76-83 | a buffer of exactly the expected length is returned as it is, without the warning |
| RepairProperties.FixKeepsConsistent | bmp_ctf_tool.py:41-91 | a consistent file whose width is the one its stride determines comes back byte for byte unchanged, with its header and without the warning |
| RepairProperties.WiderWidth | bmp_ctf_tool.py:63-68 | a width other than the one its stride determines is below that one |
| RepairProperties.FixWidensPaddedWidth | bmp_ctf_tool.py:63-74 | a consistent file whose row padding is a pixel or more has its width raised to the largest width with the same stride, and nothing else changes |
| VariantGenerator.FieldOf | bmp_ctf_tool.py:105-128 | the height variant writes the height field and the width variant the width field |
| VariantGenerator.Retag | bmp_ctf_tool.py:110-125 | a copy succeeds exactly when the field fits the buffer and both values fit 32 bits; it then has the same length, holds the new value and its own length, and keeps every other byte; otherwise it fails with a struct error |
| VariantGenerator.Retagged | bmp_ctf_tool.py:110-125 | the fresh array patched twice yields exactly Retag's result |
| VariantGenerator.BruteVariants | bmp_ctf_tool.py:94-128 | the list built branch by branch is exactly Variants, errors included |
| VariantGenerator.HeightBranch | bmp_ctf_tool.py:105-115 | the height branch yields exactly HeightVariant |
| VariantGenerator.WidthBranch | bmp_ctf_tool.py:117-128 | the width branch yields exactly WidthVariant, including the division by zero |
| VariantGenerator.RetagIsVariant | bmp_ctf_tool.py:110-125 | a successful copy with a new value is a variant: the same length, differing from the repaired bytes only in its dimension field and the file size |
| VariantGenerator.HeightVariantShape | bmp_ctf_tool.py:105-115 | the height branch yields at most one copy, a height variant of the repaired bytes |
| VariantGenerator.WidthVariantShape | bmp_ctf_tool.py:117-128 | the width branch yields at most one copy, a width variant of the repaired bytes |
| VariantGenerator.VariantsShape | bmp_ctf_tool.py:99-128 | at most two copies, height before width, each made from the repaired bytes rather than from the other copy |
| VariantGenerator.HeightVariantValue | bmp_ctf_tool.py:105-115 | a height variant exists exactly when the stride divides the pixel bytes into a row count other than the height, and it holds that count |
| VariantGenerator.WidthVariantValue | bmp_ctf_tool.py:117-128 | a width variant exists exactly when the height splits the pixel bytes into 4-aligned rows whose pixel count differs from the width, and it holds that count |
| VariantGenerator.HeightVariantSound | bmp_ctf_tool.py:105-115 | a height variant holds a new, non-negative height whose rows exactly fill the pixel bytes |
| VariantGenerator.HeightVariantComplete | bmp_ctf_tool.py:105-115 | every other height whose rows exactly fill the pixel bytes is generated |
| VariantGenerator.WidthVariantSound | bmp_ctf_tool.py:117-128 | a width variant holds a new width whose whole pixels fill the 4-aligned rows the height splits the pixel bytes into |
| VariantGenerator.WidthVariantFills | bmp_ctf_tool.py:117-128 | with at most four bytes per pixel, the width variant's stride times the height is exactly the pixel bytes, so the height formula applied to it gives back the height |
| VariantGenerator.WidthVariantComplete | bmp_ctf_tool.py:117-128 | every other width whose pixels fill those 4-aligned rows is generated |
| VariantGenerator.VariantsFailure | bmp_ctf_tool.py:103-128 | generation fails only with a struct error, or with division by zero when bpp//8 is 0 |
| VariantGenerator.HeightVariantSucceeds | bmp_ctf_tool.py:105-115 | the height branch succeeds on a buffer that holds the height field, with a length and pixel count below 2^32 |
| VariantGenerator.WidthVariantSucceeds | bmp_ctf_tool.py:117-128 | the width branch succeeds under the same conditions when bpp//8 is nonzero |
| VariantGenerator.VariantsSucceed | bmp_ctf_tool.py:105-128 | under those conditions the whole generation succeeds |
| VariantGenerator.RetagParses | bmp_ctf_tool.py:110-125 | a copy decodes to the repaired header with only the varied dimension and the file size replaced |
| FixThenVariants.VariantsAfterFix | bmp_ctf_tool.py:151-153 | after a successful pass, generation succeeds whenever the repaired file still holds the height field |
| FixThenVariants.HeightVariantAfterFix | bmp_ctf_tool.py:151-153 | after a successful pass, a height variant is generated only when there are no pixel bytes, and it proposes height 0 |
| FixThenVariants.ShortRowsHeader | bmp_ctf_tool.py:24-32 | the example file decodes to file size 1, offset 1, DIB size 40, width 1, height 4, 8 bits per pixel |
| FixThenVariants.ShortRowsReshape | bmp_ctf_tool.py:63-81 | on the example, neither dimension changes and the buffer is cut to 17 bytes |
| FixThenVariants.ShortRowsVariants | bmp_ctf_tool.py:117-124 | on the cut example, the width variant cannot store its width and generation raises a struct error |
| FixThenVariants.VariantsFailAfterTruncation | bmp_ctf_tool.py:151-153 | a file the pass repairs can be cut below the width field, after which the --brute step raises a struct error |

## Left out

- File input and output are not modelled: reading the input, writing the repaired file and the variant files, creating the `variants` directory, and naming the outputs. The pass takes the input bytes and returns the repaired bytes. Generation takes the repaired bytes as a parameter and returns the copies as a list of (bytes, dimension, value) rather than writing them.
- Because there is no file output, the model does not capture that variant files written before a failing branch are left on disk. Generation returns only the error.
- The header printing, the truncation warning print and the variant listing are not modelled. The warning is the `missingPixels` flag of the result.
- The command line (`main`, argument parsing, `--info`) is not modelled, apart from the fix-then-generate sequence of `--brute`.
- The `changed` flag and the copy of the original header are not modelled; they only feed reports.
- FixKeepsConsistent: stated only for a width equal to the one its stride determines, because the code widens any other width (FixWidensPaddedWidth).
- WidthVariantFills: stated only for at most four bytes per pixel. With wider pixels a 4-aligned row length need not be the stride of the width taken from it.
