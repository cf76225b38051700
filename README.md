# OSNMA I/NAV page extractor in Dafny

This project models the page extractor of an OSNMA (Open Service Navigation
Message Authentication) receiver library for Galileo. It covers the class
`DataFormat` and the band enumeration `GAL_BAND` in
`osnma/input_formats/base_classes.py`.

A `DataFormat` wraps one 240-bit I/NAV page, with the even and odd halves
concatenated. It also holds the satellite ID (SVID), the Galileo System Time
(GST) of the page's first symbol, the signal band and a CRC flag. From the
bits it derives:

- whether the page carries OSNMA data. Only E1-B pages can, and only when the
  40-bit OSNMA field `[138, 178)` is not all zeros;
- the 8-bit HKROOT slice `[138, 146)` and the 32-bit MACK slice `[146, 178)`;
- on OSNMA pages whose time of week satisfies `tow % 30 == 2`, the DSM header.
  This is the HKROOT byte split into a 4-bit DSM ID and a 4-bit block ID, as
  laid down for the HKROOT message in section 3.1 of the Galileo OSNMA SIS ICD.

Layout:

- `bits.dfy`, module `Bits`: bit strings as `seq<bool>`, most significant bit
  first. It defines their big-endian unsigned value `Uint` (the `.uint` of a
  bit array) and the lemmas about it.
- `input_formats.dfy`, module `InputFormats`: the `Band` and `Gst` datatypes,
  the layout constants, and the pure functions `HasOsnma` and
  `SplitDsmHeader`. It also holds the class `DataFormat`, with its
  constructor, the factory `Create`, `GetOsnma` and `DsmHeader`.

Modelling choices:

- The constructor fills the fields one by one, as the source does. It first
  sets `dsmId` and `bid` to None and then calls `DsmHeader` when the page
  qualifies. A 240-bit length is a precondition of the constructor.
- The source's `ValueError` for a page of the wrong length is modelled by
  `DataFormat.Create`. It returns `Failure(WrongLength(n))` and builds no page.
- GST is an opaque pair `Gst(wn, tow)`. Python's `tow % 30` with a positive
  divisor agrees with Dafny's `%` on `int`, negative `tow` included.
- `dsm_id` and `bid` are bit slices in the source, not integers. They are
  modelled as `Option<seq<bool>>`. Their values in 0..15 are stated through
  `Uint`.
- The band enumeration is string-valued in the source. It is a two-case
  datatype here. `Band.Name` gives each label, and `BandNamesDistinct` shows that the labels tell the bands apart.
- The source keeps the `crc` flag but never reads it. No derived field depends
  on it.

## Model

| member | source | states |
|---|---|---|
| `Bits.Uint` | osnma/input_formats/base_classes.py:54 | The big-endian unsigned value of an n-bit string is below 2^n. |
| `Bits.UintNonZeroIff` | osnma/input_formats/base_classes.py:54 | `.uint != 0` holds exactly when some bit of the string is set (both directions). |
| `Bits.UintAppend` | osnma/input_formats/base_classes.py:65-69 | The value of a concatenation is the leading part's value shifted left by the trailing part's width, plus the trailing part's value. |
| `InputFormats.HasOsnma` | osnma/input_formats/base_classes.py:54 | A page has OSNMA data iff its band is E1-B and some bit in `[138, 178)` is set. On any other band the flag is false, whatever the bits. |
| `InputFormats.BandNamesDistinct` | osnma/input_formats/base_classes.py:21-23 | The band labels `E1-B` and `E5b-I` (`Band.Name`) are equal exactly when the bands are equal. So the label comparison `band != GAL_BAND.E1B` at line 54 is the same as comparing the datatype values. |
| `InputFormats.IsDsmHeaderTow` | osnma/input_formats/base_classes.py:57 | A DSM header time of week is 2 past a multiple of 30 (`tow - 2 == 30 * ((tow - 2) / 30)`). With the positive divisor 30, Dafny's `%` gives the same result as Python's floored `%`, negative `tow` included. |
| `InputFormats.DsmHeaderTowPeriodic` | osnma/input_formats/base_classes.py:57 | Every time `30k + 2` is a DSM header time, for any integer `k`, negative ones included. `30k + 3` never is. For negative times it agrees with Python: `-28 % 30 == 2` holds and `-2 % 30 == 2` does not. |
| `InputFormats.SplitDsmHeader` | osnma/input_formats/base_classes.py:65-69 | The DSM ID (first 4 bits) and block ID (last 4 bits) concatenate back to the HKROOT byte. Each is in 0..15, and the byte's value is 16 × DSM ID + block ID. |
| `InputFormats.DataFormat.constructor` | osnma/input_formats/base_classes.py:36-58 | Stores the bits, SVID, band and CRC flag unchanged and sets the GST to `(wn, tow)`. The OSNMA flag is as `HasOsnma` states. `dsmId` and `bid` are set, together, exactly when OSNMA is present and `tow % 30 == 2`; when set they concatenate to the HKROOT byte and each lies in 0..15. Otherwise they stay None. The page invariant `Valid` holds afterwards. |
| `InputFormats.DataFormat.Create` | osnma/input_formats/base_classes.py:38-40 | Fails with the actual length, and produces no page, iff the bit string is not exactly 240 bits. Otherwise it returns a fresh valid page with the given fields. |
| `InputFormats.DataFormat.GetOsnma` | osnma/input_formats/base_classes.py:60-63 | Returns an 8-bit HKROOT slice and a 32-bit MACK slice whose concatenation is exactly the 40-bit OSNMA field tested by `HasOsnma`. So the two regions are contiguous and do not overlap. As a function it changes no field. |
| `InputFormats.DataFormat.DsmHeader` | osnma/input_formats/base_classes.py:65-69 | Requires an OSNMA page at a DSM header time, as the constructor has when it calls it. It sets `dsmId` and `bid` to the two nibbles of the HKROOT byte, which concatenate back to it, and leaves the page invariant `Valid` holding. It changes no other field. |
| `InputFormats.OsnmaPresentIffSliceNonZero` | osnma/input_formats/base_classes.py:54-63 | On a valid page, OSNMA is present iff the band is E1-B and the HKROOT byte or the MACK word is non-zero. |
| `InputFormats.GetOsnmaDependsOnlyOnBits` | osnma/input_formats/base_classes.py:60-63 | Two pages with the same bits yield the same HKROOT and MACK slices, whatever their band, GST, OSNMA flag or CRC flag. |

## Left out

- `PageIterator` (osnma/input_formats/base_classes.py:72-83) is an abstract input-stream interface with empty bodies. It is I/O plumbing with no behaviour.
- `PAGE_TOW_E1B_LOOKUP_TABLE` (osnma/input_formats/base_classes.py:86-104) is constant data that nothing in this file reads, and its own comment calls it only indicative.
- The internals of the GST class and of the bit-array library are not part of this model. GST is an opaque pair, with no claims about its ordering or arithmetic. Bit arrays are `seq<bool>` values. In the source the page keeps a reference to the caller's bit array, which can be changed in place. If the caller changes it after construction, `get_osnma` returns slices of the new bits, while `has_osnma`, `dsm_id` and `bid` keep their old values. The model stores the bits as a value, so it does not capture that aliasing.
- `metrics/scenario_metrics/plot_ttfaf_walk_atomium.py` is an experiment and plotting script (file loading, plots) and is not part of this model.
- The rest of the authentication engine is not part of this model: DSM reassembly, the TESLA chain, MACK parsing, tag verification and TTFAF tracking.
- Python lets a caller pass a plain string equal to `'E1-B'` as the band, and it compares equal to the enumeration member. The model accepts only the two datatype values.
