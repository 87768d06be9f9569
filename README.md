# ephutil: a verified model

This project models the core of `ephutil/ephutil.c`, the support file that sits
beside the NOVAS astrometry library in the astro-novas repository:

- **Leap-second lookup** (`leapsec_tai_utc`): the constant table of dates on
  which TAI−UTC changed, closed by a dummy record dated 9999, and the linear
  scan that answers the offset in force at a UTC Julian Date.
- **Time parameters** (`make_time_parameters`): the UTC, TT and UT1 Julian
  Dates and Delta-T derived from one UTC Julian Date and a UT1−UTC offset.
- **Ephemeris title** (`get_eph_title`): the trimming of the title read from the
  head of a JPL binary ephemeris file into a caller's buffer.
- **Ephemeris constants** (`init_eph_const`, `free_eph_const`,
  `get_eph_const`, `cmp_eph_const`): the process-wide table of named constants,
  loaded from the ephemeris reader's constant routine, sorted by name and
  searched by exact name.

Modules: `Text` (trailing-blank trimming and `strcmp`), `LeapSeconds`,
`EphTitle`, `EphConsts`, and `Wrappers` (an `Option` type).

Modelling choices:

- Julian Dates and second counts are `real`. The lookup only compares them.
- The TAI−UTC reference is `LeapSeconds.TaiUtc`. It picks the table row
  numbered by how many later rows take effect strictly before the date. The
  scan `LeapsecTaiUtc` is proved equal to it.
- Two behaviours of the code are easy to misread. The model keeps both:
  - The scan's test at ephutil/ephutil.c:92 is a strict `<`. So on a row's
    own date the scan answers the previous offset. For 2457204.5 that is
    35 s, although line 82 dates the 36 s offset from 2015-07-01, which is
    JD 2457204.5.
  - A read that returns anything other than `out_len-1` bytes never moves
    `p` (lines 18-24). So the title is empty, not the bytes that were read.
- `get_eph_title` works in place. It is a method over the caller's `array<char>`.
  The file's open and read outcome is a parameter (`ReadResult`). The bytes the
  read delivered are already at the front of the array.
- The constant table is a class, `EphConstTable`. Its fields stand for
  `eph_consts`, `nbr_of_eph_consts` and `eph_jd`. The constant routine's
  outputs are `Init`'s parameters: the count, the 600×6 name buffer, the 600
  values and the three dates. The allocation of `eph_consts` is a boolean
  input that, when false, leaves the table empty.
- NaN is `None`.
- `qsort` is modelled by `SortByName`, whose contract is "sorted permutation".
  It is built by insertion.
- `bsearch` is a binary search whose contract is "finds an entry with the name
  exactly when one exists".
- `strcmp` is `Text.StrCmp`. It compares character codes and answers −1, 0
  or 1. Only the sign of C's result is ever used.
- `get_rtrim` is `Text.RTrim`, which strips trailing blanks. Its bound of 8
  characters is never reached by a 6-character slot.

## Model

| member | source | states |
|---|---|---|
| `Text.RTrim` | ephutil/ephutil.c:19-20 | the trimmed string is a prefix of the input, does not end in a blank, and only blanks were cut |
| `Text.RTrimUnique` | ephutil/ephutil.c:19-20 | those three properties determine the trimmed string uniquely |
| `Text.StrCmp` | ephutil/ephutil.c:142-144 | the comparison answers −1, 0 or 1, and 0 exactly when the names are equal |
| `Text.StrCmpAntisymmetric` | ephutil/ephutil.c:142-144 | swapping the two names negates the comparison |
| `Text.StrCmpTransitive` | ephutil/ephutil.c:142-144 | the name order is transitive, so sorting and binary search by it are sound |
| `LeapSeconds.TableAscending` | ephutil/ephutil.c:55-84 | the table's Julian Dates strictly ascend, its offsets never decrease, they run from 10 s to 36 s, and the last row is the dummy record at 5373119.5 |
| `LeapSeconds.EntryIndex` | ephutil/ephutil.c:89-95 | for any date up to the dummy record's, the governing row lies before the dummy record, so the scan never leaves the table |
| `LeapSeconds.WindowIsEntryIndex` | ephutil/ephutil.c:92-94 | a row governs a date exactly when the date lies after that row's date (or the row is the first) and no later than the next row's date |
| `LeapSeconds.WindowLookup` | ephutil/ephutil.c:89-95 | for Table[i].jd < jd <= Table[i+1].jd the lookup is row i's offset |
| `LeapSeconds.ExactDateGivesPrevious` | ephutil/ephutil.c:92 | on a row's exact date the lookup is the preceding row's offset |
| `LeapSeconds.Around2015` | ephutil/ephutil.c:81-94 | 2457204.4 and 2457204.5 give 35 s, and 2457204.6 gives 36 s |
| `LeapSeconds.EarlyDatesFloor` | ephutil/ephutil.c:56-57 | every date up to 2441499.5, including dates before 1972, gives 10 s |
| `LeapSeconds.TaiUtcMonotone` | ephutil/ephutil.c:55-95 | the lookup never decreases as the date advances |
| `LeapSeconds.TaiUtcBounds` | ephutil/ephutil.c:55-95 | the lookup always lies in [10 s, 36 s] |
| `LeapSeconds.LeapsecTaiUtc` | ephutil/ephutil.c:89-95 | the scan, for any date up to the dummy record's, returns the reference TAI−UTC |
| `LeapSeconds.MakeTimeParameters` | ephutil/ephutil.c:126-133 | the bundle keeps the UTC date, holds the lookup's leap seconds (within [10, 36]), puts TT ahead of UTC by leap seconds + 32.184 s and UT1 ahead by UT1−UTC, and Delta-T is TT−UT1 in seconds |
| `EphTitle.Title` | ephutil/ephutil.c:15-25 | the title is empty unless the read delivered exactly capacity−1 bytes; otherwise it is a prefix of those bytes without a trailing blank, and only blanks were cut; it is never longer than capacity−1 |
| `EphTitle.GetEphTitle` | ephutil/ephutil.c:11-26 | returns the title's length, the buffer's front holds the title, and the only change to the buffer is the terminator written right after it |
| `EphConsts.Loaded` | ephutil/ephutil.c:167-176 | the delivered constants are n entries, each with the trimmed name of its 6-character slot (so at most 6 characters) and the value of the same index |
| `EphConsts.Insert` | ephutil/ephutil.c:177 | one insertion step adds exactly the given entry |
| `EphConsts.InsertSorted` | ephutil/ephutil.c:177 | an insertion step keeps a name-sorted table sorted |
| `EphConsts.SortByName` | ephutil/ephutil.c:177 | the sort yields a permutation of its input, sorted by name |
| `EphConsts.LoadedNameFound` | ephutil/ephutil.c:170-177 | every delivered constant's name is in the sorted table |
| `EphConsts.LoadedValueExact` | ephutil/ephutil.c:199-214 | when the delivered names are distinct, an entry found under a delivered name carries that constant's own value |
| `EphConsts.EphConstTable.constructor` | ephutil/ephutil.c:146-148 | before any load, the table is empty with count 0 |
| `EphConsts.EphConstTable.Init` | ephutil/ephutil.c:150-185 | a count outside 1..599, or a failed allocation, leaves the table empty with count 0. Otherwise the table holds exactly the n delivered entries (names trimmed), as a permutation, sorted by name. Nothing from before the call survives, and the table invariant holds |
| `EphConsts.EphConstTable.Free` | ephutil/ephutil.c:187-193 | the table is empty with count 0 whatever it held, so a second call is harmless |
| `EphConsts.LoadThenGet` | ephutil/ephutil.c:150-214 | after a successful load with distinct names, looking up any delivered non-empty name returns exactly that constant's value |
| `EphConsts.EphConstTable.Get` | ephutil/ephutil.c:199-214 | a value is returned exactly when the name has 1 to 6 characters and some entry carries exactly that name (so never on an empty table), and the value returned belongs to such an entry |

## Left out

- `normalize` (ephutil/ephutil.c:42-46) is left out. It is floating-point division and `floor`.
- `get_jd_utc` (ephutil/ephutil.c:100-120) is left out. It reads the system clock, calls `gmtime_r` and `printf`, and uses NOVAS's external `julian_date`.
- LeapSeconds.MakeTimeParameters: its TT, UT1 and Delta-T fields are stated over exact reals. The double-precision rounding of the source is not modelled.
- LeapSeconds.LeapsecTaiUtc: a date beyond the dummy record (5373119.5) is a precondition. The source would read past the end of the table there.
- LeapSeconds.MakeTimeParameters: carries the same precondition on its date, because `make_time_parameters` calls the scan.
- `open`, `read` and `close` in `get_eph_title` are not modelled. Their outcome is an input.
- The length argument `out_len` is the buffer's length. The model requires it to be at least 1, as the terminator write needs.
- The external Fortran routine `const_` is not part of this model. Its outputs are `Init`'s parameters.
- The allocations of the routine's scratch buffers are unchecked in the source and are not modelled. Only the checked allocation of `eph_consts` is an input.
- The diagnostic `printf` on allocation failure is not modelled.
- EphConsts.EphConstTable.Get: with duplicate names, it does not say which of their values is returned, since `bsearch` does not either.
- Names are compared as whole strings. A NUL character inside a name, which C would treat as its end, is not modelled.
- `get_rtrim`, `as_dms`, `as_hms`, `get_int` and `get_double` are declared in ephutil/ephutil.h but their bodies are not part of this model. `get_rtrim` is taken to strip trailing blanks.
- `the_planets`, the coordinate-system and planet enumerations, and the struct declarations in ephutil/ephutil.h are static data without behaviour.
- Thread safety of the file-scope table is out of scope. The source is single-threaded.
