# python-linearpartition: source patching and the MSVC clock shim

This project models two small pieces of the python-linearpartition build. It
also proves properties of them.

- `patch_linearpartition_files` in `setup.py` rewrites two LinearPartition
  sources before they are compiled:
  - In `bpp.cpp`, every MEA test `(!bpseq)` becomes the hook name
    `__mea_hook__`. This is skipped when the hook is already present.
  - In `LinearFoldEval.h`, the two variable-length `long` arrays become
    zero-initialised `std::vector<long>`s. The two lines that zeroed them
    element by element become a comment. This happens only when the file
    exists and still declares `long M1_energy[seq_length]`.
- `gettimeofday` in `contrib/sys/time.h` is the MSVC stand-in for the POSIX
  call. It joins the two 32-bit words of a Windows FILETIME. It moves the
  unsigned 64-bit tick count from 1601-01-01 to the Unix epoch 1970-01-01.
  It then splits the count into seconds and microseconds, each cast to
  MSVC's 32-bit `long`.

The project has three modules:

- `PyStr` (`pystr.dfy`) models the Python string operations the build script
  relies on: the `in` test (`Find`, `Contains`) and `str.replace`
  (`Replace`). `Split` and `Join` serve as an independent reference for
  `Replace`. The module proves:
  - `Replace` is `Join` of `Split`;
  - splitting and joining round-trip;
  - when a replacement cannot create or complete a new occurrence of a
    pattern, `Replace` removes every occurrence of that pattern or keeps it
    absent. The `Isolated` criterion states when this is the case.
- `SourcePatch` (`source_patch.dfy`) models the two patches as
  content-to-content functions whose result is `Option`. `None` means the
  file is left alone, and `Some(c)` means `c` is written. A method rebinds
  `content` step by step, as the build script does. It is proved equal to
  the two functions.
- `SysTime` (`sys_time.dfy`) models the FILETIME arithmetic as functions
  over unbounded integers, with the 64-bit wrap and the 32-bit `long`
  narrowing written out. `struct timeval` is a class whose two fields
  `GetTimeOfDay` overwrites.

## Model

| member | source | states |
|---|---|---|
| PyStr.Find | setup.py:60 | the left-to-right search behind `in` (also on line 68): an index it reports leaves room for the whole needle in the haystack (that it is the leftmost occurrence is `FindIsLeftmost`) |
| PyStr.FindIsLeftmost | setup.py:60 | the index `Find` reports is an occurrence of the needle with none before it, and `Find` reports none only when the needle occurs nowhere |
| PyStr.Contains | setup.py:60 | Python's `in`: true exactly when the needle occurs at some index |
| PyStr.Interleave | setup.py:62 | `str.replace` with an empty pattern: the result is `len(s) + (len(s)+1)·len(rep)` characters long and starts and ends with the replacement |
| PyStr.InterleavePlaces | setup.py:62 | `str.replace` with an empty pattern puts a copy of the replacement at `k·(len(rep)+1)`, followed by the `k`-th character of the input, for every `k` |
| PyStr.SplitPiecesAvoidSeparator | setup.py:62 | no piece of `str.split` contains the separator |
| PyStr.JoinSplitRoundTrip | setup.py:62 | joining the pieces of a split with the same separator gives back the original string |
| PyStr.Replace | setup.py:62 | `str.replace` without a count (also on lines 69-72 and 74-77): the non-overlapping left-to-right scan; what it computes is stated by `ReplaceAtFirst` (each step) and `ReplaceIsJoinOfSplit` (the whole result) |
| PyStr.ReplaceIsJoinOfSplit | setup.py:62 | `str.replace` equals splitting at the pattern and joining with the replacement, so the text between matches is kept unchanged and in order |
| PyStr.ReplaceAtFirst | setup.py:62 | with no match the string is unchanged; otherwise the text before the leftmost match is kept, the match becomes the replacement, and the scan resumes after the match |
| PyStr.ReplaceWithoutMatch | setup.py:62 | replacing a pattern that does not occur leaves the string unchanged |
| PyStr.ReplaceInsertsReplacement | setup.py:62 | if the pattern occurs, the replacement occurs in the result |
| PyStr.JoinExposesPiece | setup.py:62 | any occurrence inside one piece is still an occurrence in the joined string |
| PyStr.JoinAvoids | setup.py:62 | joining pieces free of `q` with an isolated separator gives a string free of `q` |
| PyStr.ReplaceRemovesPattern | setup.py:62 | with a replacement isolated from the pattern, no occurrence of the pattern is left |
| PyStr.ReplaceKeepsAbsent | setup.py:74-77 | a text absent before a replacement stays absent when the replacement is isolated from it |
| SourcePatch.PatchBppCpp | setup.py:58-62 | nothing is written exactly when `__mea_hook__` is present; otherwise the written content is the input split at `(!bpseq)` and joined with the hook, holds no `(!bpseq)`, and holds the hook exactly when the input held `(!bpseq)` |
| SourcePatch.BppPatchIdempotent | setup.py:58-62 | a second run leaves the content as the first run left it; the second run writes nothing exactly when the first found the hook or replaced at least one `(!bpseq)` |
| SourcePatch.PatchEvalH | setup.py:65-79 | nothing is written exactly when `long M1_energy[seq_length]` is absent; otherwise the declarations are replaced first and the zeroing lines second, the text outside the matches is kept, and neither the old declarations nor the zeroing lines remain |
| SourcePatch.EvalPatchIdempotent | setup.py:65-79 | a second run leaves the content as the first run left it |
| SourcePatch.PatchLinearPartitionFiles | setup.py:56-79 | the step-by-step rebinding of `content` writes to bpp.cpp what `PatchBppCpp` gives; it writes nothing to a missing LinearFoldEval.h and what `PatchEvalH` gives to an existing one |
| SysTime.DaysBetweenClosedForm | contrib/sys/time.h:26 | counting the days year by year under the Gregorian leap rule agrees with the closed-form count `365·years + leap years` |
| SysTime.EpochDeltaIsCalendarSpan | contrib/sys/time.h:26-27 | the subtracted constant 116444736000000000 is the 134774 days from 1601-01-01 to 1970-01-01, in 100-ns ticks |
| SysTime.JoinedTicks | contrib/sys/time.h:25 | shifting the high word up 32 bits and OR-ing in the low word gives `high·2^32 + low`, below 2^64 |
| SysTime.JoinedTicksKeepsWords | contrib/sys/time.h:25 | both words can be read back from the joined count |
| SysTime.UnixTicks | contrib/sys/time.h:27 | the unsigned subtraction is exact from 1970 on, and before 1970 it wraps to `ticks + 2^64 − offset` |
| SysTime.Seconds | contrib/sys/time.h:28 | `tmp / 10000000ULL` is the whole number of seconds: `sec·10^7 <= ticks < (sec+1)·10^7` |
| SysTime.Microseconds | contrib/sys/time.h:29 | the microseconds within the second are at most 999999 |
| SysTime.ToLong | contrib/sys/time.h:28-29 | the `(long)` cast gives a `Long` (a value in [−2^31, 2^31−1]), congruent to its input modulo 2^32, and equal to the input when the input fits |
| SysTime.TicksReconstruct | contrib/sys/time.h:28-29 | `seconds·10^7 + microseconds·10 + ticks mod 10` is the tick count: only the sub-microsecond ticks are dropped |
| SysTime.UnixTimeMonotonic | contrib/sys/time.h:25-29 | from 1970 on, a later FILETIME never gives an earlier (seconds, microseconds) pair, before narrowing and, while the seconds fit a `long`, after it |
| SysTime.SecondsFitLong | contrib/sys/time.h:27-28 | from 1970 on, the seconds fit a `long` exactly for counts below `offset + 2^31·10^7`; before 1970 the wrapped seconds are at least 1833029933770, never negative |
| SysTime.EpochReadsAsZero | contrib/sys/time.h:25-29 | the FILETIME with high word 27111902 and low word 3577643008 is the offset itself and reads as 0 seconds and 0 microseconds |
| SysTime.GetTimeOfDay | contrib/sys/time.h:20-31 | returns 0 and writes only `tv_sec` and `tv_usec`: the narrowed seconds and the microseconds (always in [0, 999999]) of the shifted count, with `tv_sec` exact whenever the seconds fit a `long` |

## Left out

- File I/O: the patch functions take a file's content as input and return
  what would be written. Reading the files, opening them for writing and
  failing on a missing `bpp.cpp` are not modelled. For `LinearFoldEval.h`,
  `os.path.exists` becomes the `None`/`Some` of its content.
- The rest of `setup.py` is not modelled: `setup()`, the `Extension`
  definition, compiler flags per platform, and the message printed when the
  LinearPartition sources are missing. These are build configuration and
  console output.
- The LinearPartition and LinearFold C++ sources that the patches rewrite
  are not part of this model. Their content is an arbitrary string here.
- `GetSystemTimeAsFileTime` is a call into Windows. Its reading is the
  `now` parameter of `GetTimeOfDay`. The Windows headers, the `NOMINMAX`
  guard and the `#include_next` branch for non-MSVC compilers are
  preprocessor plumbing and are left out.
- The `tzp` argument of `gettimeofday` is ignored by the source, so the
  model has no such parameter.
- SysTime.UnixTicks: the unsigned 64-bit subtraction is written as integer
  subtraction modulo 2^64 rather than as `bv64` arithmetic; the two are
  equal on every input. The shift and OR on line 25 are kept as `bv64`
  operations.
- PyStr.Replace: only the left-to-right, non-overlapping scan of
  `str.replace` without a count argument is modelled, which is the only
  form the build script uses.
