# Verified models of the JOS lab 1 kernel

Dafny models of the algorithmic parts of a small teaching kernel, with proofs of what they do: looking up an
instruction address in the stabs table, formatted printing and number parsing, the text console with its input ring and
line editor, the command-line splitter and the monitor's loop over both, the boot loader with the BSS clear, and the memory moves. Each modelled C
function is a method with the C code's branches and constants, proved against a specification; what the specification
means is proved in lemmas beside it. `dafny verify dfyconfig.toml` checks everything.

| file | models |
|---|---|
| `CTypes.dfy`, `Arith.dfy` | C integer types, strings, and multiplication and division by an unknown base |
| `Stabs.dfy` | `stab_binsearch` |
| `DebugInfo.dfy` | `debuginfo_eip`, `strfind` |
| `Format.dfy` | what a format string means: parsed into literals and escapes, which are then rendered |
| `Printf.dfy` | `printnum`, `vprintfmt`, `printfmt`, `sprintputch`, `vsnprintf`, `strnlen` |
| `Formats.dfy` | what common formats print, said of the formats and the characters in the buffer |
| `Strtol.dfy`, `RoundTrip.dfy` | `strtol`, and that it reads what `snprintf` prints |
| `Screen.dfy` | `cga_putc` |
| `Keyboard.dfy`, `Layout.dfy` | `kbd_proc_data` with its maps, and the keyboard key by key |
| `InputRing.dfy` | `cons_intr`, `cons_getc`, `getchar` |
| `Readline.dfy` | `readline` with its echo |
| `Monitor.dfy` | `runcmd`, `strchr`, `strcmp` |
| `Shell.dfy` | the loop of `monitor`: `readline` and `runcmd` together |
| `Boot.dfy`, `Elf.dfy` | `readseg` and `bootmain`, and a run on an ELF image byte by byte |
| `Paging.dfy` | the boot page tables, the BSS clear |
| `Memory.dfy` | `memmove` and `memset`, in their compiled word-wise and their byte-wise versions |

Conventions. Addresses are indices into an array of bytes; the parts of memory that a function does not touch are in its
contract. Values that C keeps in 32 bits are `uint32` and wrap where the model says so (`addr++` of the search, addresses of
`readseg`, the value of `strtol`); table indices, widths and counts are unbounded. Output goes to a `SprintBuf`, whose ghost
field `out` is the unbounded output that the bounded buffer is a prefix of. Input devices are the finite sequences of bytes
they yield. `x % 4 == 0` on addresses holds of the same addresses with C's signed remainder.

## Where the code differs from its comments

- `stab_binsearch` bumps the address on an exact hit (kern/kdebug.c:80). On a sorted table, equal values included, the result
  is the bracket of `addr` if and only if `BumpIsHarmless` holds. If `addr` and `addr + 1` are not both in the table, this says
  that `addr` is not an occurring 0xffffffff: that bump wraps to 0 and the search falls back. If both are in it, it says that
  the bisection does not land on `addr` before the first `addr + 1` is out of range (`Region.LandsBetween`); or that
  `addr + 1` is 0xffffffff and the second bump, which wraps to 0, makes the search fall back to just the last entry of `addr`.
  `FiveGivesSix` and `LastAddressIsMissed` are tables that fail, `LastTwoAreFound` is one for the last case.
- An address below the first matching stab does not give left > right (kern/kdebug.c:32-34), but right = first - 1 and
  left = min(L, right); `Region.Bracket` says so. Only the absence of any matching stab gives left > right.
- If entry 0 is an N_SO stab above the address, `debuginfo_eip` gets lfile = -1, passes the test of kern/kdebug.c:143 and
  reads before the table; this is the outcome `Fault`, and on a regular table it happens exactly then (`HeaderAboveFaults`
  is such a table).
- Increasing order of segments is not what makes overrunning reads of the boot loader harmless (boot/main.c:84-86). A read
  keeps a segment in memory, on every disk, if and only if its sectors do not meet the segment or put every byte of the image
  at the same place (`ReadKeepsIff`); two segments in increasing order of which the second read destroys the first are in
  `SharedSector`. After the whole loop a segment is loaded, on every disk with that header page, if and only if the last read
  of each of its bytes reads this byte (`InPlaceIff`); segments that line up with their file offsets and whose sectors start
  after the end of the earlier segments meet that (`WellFormedIsInPlace`).
- The loop of `readseg` does not end for a segment that ends in the last sector of the address space (boot/main.c:87-95): the address
  wraps to 0, below the end again. `ReadSegEndsIff` says that these are the only ones.
- A number is never padded on the right: the `-` flag pads it on the left with `-` characters (`MinusFlagPadsLeft`), and a minus
  sign is not counted in the width (lib/printfmt.c:44-45, 193-194; `MinusOutsideWidth`).
- `strtol` takes a leading `0x` for a prefix even if no digit follows (`PrefixWithoutDigits`), and does not detect overflow; the
  model reports overflow exactly.
- The byte-wise `memset` counts in an int (lib/string.c:177-181): for a count above 0x80000000 it fills nothing, where the
  compiled one fills the region. The two leave the same memory if and only if the count is at most INT_MAX or the region is
  filled already (`MemsetsAgreeIff`).
- `%e` of INT_MIN passes the test of lib/printfmt.c:168, as its negation is still negative, and indexes `error_string` before
  its start; this is the result `fault` of `PrintError`, which happens for no other number.
- With the control key held, the home key gives nothing, as its entry of `ctlmap` is at 0x97 instead of 0xc7
  (kern/console.c:296; `EscapedKeys`).
- An input ring that reaches 512 characters is empty again (kern/console.c:399-401); 0x7f typed on an empty line is stored
  (lib/readline.c:22-29; `DeleteOnEmptyLine`); the command table has no `backtrace` (kern/monitor.c:24-27).

## Model

| member | source | states |
|---|---|---|
| Stabs.StabBinsearch | kern/kdebug.c:50-94 | ends on every table within bitlength + bumps steps (at most one bump if addr and addr + 1 do not both occur), and every skipped address occurred; on every sorted table the result is the bracket found by linear scans if and only if the bump is harmless, and its left end is before the region exactly if the region starts with a match above addr (addr below 0xffffffff); on a strictly sorted one, unless the hits reach 0xffffffff, it is the bracket of the last address hit; the hits stop below any later address that is not in the table |
| Stabs.SplitIsBracket | kern/kdebug.c:84-93 | when the loop ends on a sorted table, its two bounds and the trailing walk give the exact bracket of the last address searched for |
| Stabs.OvershotIff | kern/kdebug.c:69-81 | with both addr and addr + 1 in a sorted table, the end state is the bracket of addr iff the bisection does not land on addr first, or lands next on the first 0xffffffff with an entry of addr just before it |
| Stabs.WrappingIsNoBracket | kern/kdebug.c:75-80 | a search for 0xffffffff that hits it never ends with the bracket's right end |
| Stabs.SimpleIsExact | kern/kdebug.c:75-80 | the bump is harmless whenever the address is not in the table, or is not 0xffffffff and is there without its successor |
| Stabs.BitLengthIs | kern/kdebug.c:56-57 | the step bound is a logarithm: n is below 2 to its bit length, and not below half of that |
| Stabs.FiveGivesSix | kern/kdebug.c:75-80 | a table with the values 5 and 6: the search for 5 does not find the bracket of 5 |
| Stabs.LastTwoAreFound | kern/kdebug.c:75-80 | a table with the last two addresses: the first is hit and bumped twice, and its bracket found |
| Stabs.LastAddressIsMissed | kern/kdebug.c:75-80 | a table with 0xffffffff: the search for it does not find its bracket |
| DebugInfo.DebuginfoEip | kern/kdebug.c:104-208 | panics exactly below ULIM, fails with -1 on a bad string table, and otherwise reports what its three brackets determine; on a regular table (each search on sorted entries, with a harmless bump) these are the brackets found by linear scans, and it reads before the table if and only if entry 0 is an N_SO stab above the address; this stab makes it do so whenever the N_SO entries are sorted; on a well-formed table it reports the nested scan, and in a file without functions the line of the address itself |
| DebugInfo.LookupIsNaive | kern/kdebug.c:130-207 | on a well-formed table the reported function and line are those of the naive nested linear scan, the function's name ends at its first colon or NUL, the brackets nest lfile <= lfun <= lline <= rline <= rfun <= rfile, the file name comes from the last naming stab at or before the line and never from before lfile, and narg is the run of N_PSYM stabs strictly inside the function's bracket |
| DebugInfo.AssemblyIsReported | kern/kdebug.c:163-182 | in a file without functions the line is the last one not above the address itself, and the function is unknown and starts at the address |
| DebugInfo.ReportedMeans | kern/kdebug.c:114-205 | on any table, what each field is and what is returned when no file, no function or no line is found, given the brackets |
| DebugInfo.HeaderAboveFaults | kern/kdebug.c:139-144 | a table of one N_SO stab above the address is regular and gives lfile = -1 |
| DebugInfo.WellFormedIsRegular | kern/kdebug.c:139-182 | the nested scan and the three searches find the same brackets |
| DebugInfo.RegularNests | kern/kdebug.c:139-182 | on a regular table lfile is -1 exactly if entry 0 is an N_SO stab above the address, and the brackets nest even if no function is found |
| DebugInfo.WalkToFile | kern/kdebug.c:191-194 | the backward walk stops at the last naming stab of [lfile, line], or at lfile - 1 if there is none |
| DebugInfo.CountParameters | kern/kdebug.c:201-205 | adds the number of consecutive N_PSYM stabs after lfun and before rfun, and changes no other field |
| DebugInfo.StrFind | lib/string.c:111-118 | the first position that holds the character or ends the string |
| Printf.SprintBuf.Put | lib/printfmt.c:260-266 | keeps the buffer equal to the prefix of the unbounded output that fits, counts all of it, and touches nothing else |
| Printf.Printnum | lib/printfmt.c:35-50 | emits max(0, width - D) pad characters and then the D digits of the number |
| Printf.NumberFieldLayout | lib/printfmt.c:35-50 | a number field has length max(width, D), its digits come last and everything before them is padding |
| Printf.StringFieldLayout | lib/printfmt.c:175-188 | a string field shows min(strlen, precision) characters, has length max(width, k), and is padded on the left unless the minus flag was given, then with spaces on the right |
| Printf.PrintString | lib/printfmt.c:175-188 | emits exactly the string field, with '?' for unprintable characters under the alternate flag |
| Printf.Strnlen | lib/string.c:21-29 | the length of the string or the limit, whichever is smaller, as long as this is an int |
| Printf.ReadModifiers | lib/printfmt.c:96-161 | the reswitch loop reads exactly the modifiers of the declarative scanner and applies them to flags and arguments in order |
| Printf.PrintNumber | lib/printfmt.c:191-227 | sign or prefix, value of the argument's width and signedness, base and field of each number conversion |
| Printf.PrintError | lib/printfmt.c:164-172 | prints the message of a known error code of either sign, else "error" and the number, through a nested format that terminates; the least int, and only it, indexes before the error table |
| Printf.MinusOutsideWidth | lib/printfmt.c:191-198 | "%d" of a negative number has one character more than the larger of its width and its digits |
| Printf.MinusFlagPadsLeft | lib/printfmt.c:35-50 | "%-3d" of 7 is padded on the left, with minus signs |
| Formats.StringWithin | lib/printfmt.c:118-188 | "%[-]W.Ks", for all W, K above 0 and every string: its first min(strlen, K) characters, filled up to W with spaces on the right with the minus flag and else on the left |
| Formats.StringPrefix | lib/printfmt.c:137-188 | "%.*s": the first K characters, or all if the argument is negative |
| Formats.StringAlternate | lib/printfmt.c:146-186 | "%#s": characters outside ' ' to '~' are shown as '?' |
| Formats.NullString | lib/printfmt.c:175-177 | "%s" of a null pointer prints "(null)" |
| Formats.NumberWithin | lib/printfmt.c:103-227 | a number format with an optional '-' or '0', any width, up to two 'l's and d, u, o, x or p: sign or prefix, padding, digits of the 32- or 64-bit argument |
| Formats.NumberPlain | lib/printfmt.c:191-227 | the same without width: nothing but sign or prefix and digits |
| Formats.HexIsSmall | lib/printfmt.c:49 | hexadecimal digits are 0 to 9 and small a to f |
| Formats.ErrorMessages | lib/printfmt.c:22-30 | "%e" prints the message of each of the six codes of either sign, and "error N" for other numbers |
| Formats.CharPrinted | lib/printfmt.c:159-161 | "%c" prints the low byte of its argument |
| Formats.CharIsStored | lib/printfmt.c:260-266 | a signed char arrives in the buffer as the character it was |
| Formats.PercentPrinted | lib/printfmt.c:230-232 | "%%" prints a percent sign |
| Formats.UnknownPrinted | lib/printfmt.c:235-239 | any other character after '%' is printed with it |
| Formats.ArgumentsInOrder | lib/printfmt.c:91-161 | in "<%2d:%d" text is copied, arguments are used in order, and the width does not last |
| Printf.BackUp | lib/printfmt.c:235-239 | the backtracking of an unrecognized escape stops exactly after the escape's own '%' |
| Printf.Vprintfmt | lib/printfmt.c:82-242 | for every format and matching arguments the goto loop emits exactly the rendering of the parsed format, terminates although it backs up, and never reads past the NUL |
| Printf.UnrecognisedIsVerbatim | lib/printfmt.c:235-239 | an unrecognized escape is printed as it stands and then the rest of the format |
| Printf.LiteralRun | lib/printfmt.c:91-95 | characters without a '%' are copied |
| Printf.RenderErrorFormat | lib/printfmt.c:168-169 | the nested format "error %d" prints the text of an unknown error |
| Printf.RenderStringFormat | lib/printfmt.c:170-171 | the nested format "%s" prints the text of a known error |
| Printf.Vsnprintf | lib/printfmt.c:268-283 | writes exactly the first min(len, n - 1) characters of the full output and a NUL, changes no byte outside, and returns the full length; a null buffer or n < 1 gives -E_INVAL and changes nothing |
| Strtol.StrToLong | lib/string.c:239-284 | reads blanks, sign, prefix and the maximal run of digits; the result is the number read, wrapped to 32 bits; the run overflows on the way exactly if its value is above INT_MAX |
| Strtol.ReadDigits | lib/string.c:264-279 | the digit loop ends at the first character that is no digit of the base, with the wrapped value and the exact overflow condition |
| Strtol.ReadsText | lib/string.c:239-284 | blanks, an optional sign, the prefix that the base allows, digits and something else: the digits are the number, for every base, and the end pointer is after them |
| Strtol.DigitMeans | lib/string.c:268-275 | digits stand for 0 to 9, letters of either case for 10 to 35, and other characters for no digit |
| Strtol.WrapMeans | lib/string.c:277 | the wrapped value is the long that is equal modulo 2^32 |
| Strtol.PrefixWithoutDigits | lib/string.c:255-257 | "0x" in base 0 or 16 is read as 0, with the end pointer after the x |
| Strtol.WrapStep | lib/string.c:277 | wrapping at each digit gives the wrapped value of the whole |
| RoundTrip.PrintoutValue | lib/printfmt.c:35-50 | the printed digits are digits of the base with the number as their value, and start with 0 only for zero |
| RoundTrip.PrintoutLength | lib/printfmt.c:35-50 | D digits are printed exactly for base^(D-1) <= num < base^D |
| RoundTrip.PrintoutPrefix | lib/printfmt.c:35-50 | the first m digits are the digits of the number without its last D - m digits |
| RoundTrip.DropIsDiv | lib/printfmt.c:41-42 | dropping k digits divides by base^k |
| RoundTrip.DecimalRoundTrip | lib/printfmt.c:191-198 | "%d" of every int is read back in base 10 or 0 with the end pointer at the NUL; INT_MIN is the only one that overflows on the way |
| RoundTrip.PrintThenRead | lib/printfmt.c:268-283 | `snprintf` with "%d" into any buffer of at least 12 characters and then `strtol` on it give back every int, with the end pointer at the NUL |
| RoundTrip.PrintAndRead | lib/printfmt.c:268-283 | for any format whose text, as far as it fits, reads as a number, `snprintf` and then `strtol` on the buffer return this number as a long, with the end pointer at the NUL |
| RoundTrip.UnsignedThenRead | lib/printfmt.c:201-211 | so "%u", "%o" and "%x" of every unsigned int come back as the long with the same bits |
| RoundTrip.PointerThenRead | lib/printfmt.c:214-220 | so does "%p" in base 0 or 16 |
| RoundTrip.PaddedThenRead | lib/printfmt.c:223-227 | so does "%08x", which always takes eight characters |
| RoundTrip.TruncatedThenRead | lib/printfmt.c:260-283 | "%u" into a buffer for m of the D digits comes back as n / 10^(D-m) |
| RoundTrip.UnsignedRoundTrip | lib/printfmt.c:201-211 | "%u", "%o" and "%x" of every unsigned int are read back in base 10, 8 and 16 |
| RoundTrip.PointerRoundTrip | lib/printfmt.c:214-220 | "%p" of every pointer is read back in base 0 or 16 |
| RoundTrip.PaddedRoundTrip | lib/printfmt.c:223-227 | "%08x" of every unsigned int is read back in base 16 |
| RoundTrip.TruncatedRoundTrip | lib/printfmt.c:260-283 | "%u" cut off after m of D digits is read back as n / 10^(D-m) |
| Screen.Cga.Putc | kern/console.c:162-209 | for every int the screen stays the window onto a page that only grows, with the cursor on it; tabs recurse and end |
| Screen.Cga.PutBare | kern/console.c:166-192 | backspace, newline, return and the written cell, with default attribute and 16-bit truncation |
| Screen.Cga.Scroll | kern/console.c:195-202 | the in-place scroll shows the page extended by a blank row |
| Screen.WindowMeans | kern/console.h:16-18 | the screen shows 25 rows of 80 cells with the cursor on them |
| Screen.CharacterPut | kern/console.c:166-202 | a character other than 8, 9, 10 and 13 is stored at the cursor, with attribute 7 if it has none, and scrolls a blank row in at the end of the screen |
| Screen.BackspacePut | kern/console.c:170-175 | a backspace blanks the cell before the cursor, except at the start of the screen |
| Screen.NewlinePut | kern/console.c:176-179 | a newline moves to the start of the next row |
| Screen.ReturnPut | kern/console.c:178-180 | a carriage return moves to the start of the row |
| Screen.TabPut | kern/console.c:181-187 | a tab is five spaces |
| Screen.HistoryIsKept | kern/console.c:162-202 | after every character sequence, rows that have left the window are as they were when they left it |
| Screen.ScrollSlides | kern/console.c:194-202 | a scroll slides the window by exactly one row onto a blank one, with the cursor at its start |
| Keyboard.Keyboard.KbdProcData | kern/console.c:316-361 | -1 exactly without data, else a byte and the next state of the modifier machine; reboot exactly for Ctrl, Alt and the delete key together |
| Keyboard.StreamMeaning | kern/console.c:327-343 | after any stream of scancodes a modifier is held exactly if the last movement of any of its keys was a press, a lock is on exactly after an odd number of presses, and the escape is pending exactly if it came last |
| Keyboard.AnyKeySettles | kern/console.c:331-342 | after any stream, moving any key of a modifier leaves the modifier held exactly if this was a press: releasing one of two keys releases it |
| Layout.DigitRow | kern/console.c:243-284 | the keys from 0x02 on give 1234567890-= and, shifted, !@#$%^&*()_+ |
| Layout.TopRow | kern/console.c:243-284 | those from 0x10 on give qwertyuiop[] and QWERTYUIOP{} |
| Layout.HomeRow | kern/console.c:243-284 | those from 0x1e on give asdfghjkl;'` and ASDFGHJKL:"~ |
| Layout.BottomRow | kern/console.c:243-284 | those from 0x2b on give a backslash and zxcvbnm,./, shifted a bar and ZXCVBNM<>? |
| Layout.OtherKeys | kern/console.c:245-300 | escape, backspace, tab, return, space and the star of the pad |
| Layout.Keypad | kern/console.c:245-300 | the number pad gives 789-456+1230. |
| Layout.ControlTop | kern/console.c:285-300 | with the control key a letter of the top row gives its place in the alphabet |
| Layout.ControlHome | kern/console.c:285-300 | so does one of the home row |
| Layout.ControlBottom | kern/console.c:285-300 | so does one of the bottom row; the two slash keys give 0x1c and 0xef |
| Layout.CapsSwapsCase | kern/console.c:345-351 | the lock swaps the case of letters under any modifiers |
| Layout.EscapedKeys | kern/console.c:252-300 | cursor keys, slash and enter behind the escape, with and without the control key, and nothing for the other keys |
| Layout.ReleaseIsSilent | kern/console.c:327-335 | a release and the escape give no character |
| Layout.ShiftKeys | kern/console.c:226-234 | both shift keys hold and release shift |
| Layout.LeftModifiers | kern/console.c:226-234 | the left control and alt keys |
| Layout.EscapedModifiers | kern/console.c:226-234 | the right control and alt keys |
| Layout.LockKeys | kern/console.c:236-241 | the three locks are toggled |
| Layout.OtherBytes | kern/console.c:327-343 | every other byte changes no modifier and no lock, and ends the escape |
| Layout.ThreeFingers | kern/console.c:354-358 | control, alt and delete, as scancodes, give what the driver reboots on |
| InputRing.PushAllMeans | kern/console.c:391-403 | characters queue up in order, and the one that makes them 512 empties the queue |
| InputRing.ZeroIsDropped | kern/console.c:397-398 | a zero from a device is dropped |
| InputRing.AwaitMeans | kern/console.c:457-465 | getchar waits while the devices yield nothing and then delivers the first character, of the serial port before the keyboard |
| InputRing.ReceivedIsYielded | kern/console.c:406-415 | the characters received in a run are the nonzero ones that the devices yielded, in order, the serial port before the keyboard in each read |
| InputRing.Ring.Store | kern/console.c:399-401 | a stored character is appended to the queue, which is empty again when it reaches 512 |
| InputRing.Ring.ConsIntr | kern/console.c:391-403 | all characters of the device but 0 are queued in order |
| InputRing.Ring.ConsGetc | kern/console.c:406-425 | polls both devices and delivers the head of the queue; 0 means exactly that the queue is empty |
| InputRing.Getchar | kern/console.c:457-465 | polls until there is a character and delivers the first |
| InputRing.Drive | kern/console.c:383-425 | a new ring driven through any interleaving of interrupts and reads delivers and holds exactly what the history of the run says, and this is accounted for |
| InputRing.EveryRunIsAccounted | kern/console.c:383-425 | in the history of every interleaving of interrupts and reads, what was received is what was delivered and then the queue, in order, less one block of 512 consecutive characters for each overflow |
| InputRing.AccountedMeans | kern/console.c:383-425 | the counts add up, and the queue holds the most recent characters |
| Readline.ReadLine | lib/readline.c:7-37 | after every key sequence the buffer is the edited line, the page shows it from the prompt's end with the cursor after it, all of it within the window, nothing before it changed; a line end terminates the string and echoes a newline |
| Readline.TypeKey | lib/readline.c:18-35 | one key keeps buffer and screen in agreement |
| Readline.BackspaceErases | lib/readline.c:22-25 | the echoed backspace blanks exactly the cell of the removed character |
| Readline.CharacterAppends | lib/readline.c:26-29 | a printable character is appended, up to 1023 of them |
| Readline.BackspaceRemoves | lib/readline.c:22-25 | backspace and 0x7f remove the last character |
| Readline.TypedAndErased | lib/readline.c:22-29 | a character typed and erased leaves the line as it was |
| Readline.ControlIsIgnored | lib/readline.c:18-35 | other control characters, and backspace on an empty line, change nothing |
| Readline.LineEndsAt | lib/readline.c:30-34 | the line ends at the first newline or carriage return |
| Readline.DeleteOnEmptyLine | lib/readline.c:22-29 | 0x7f on an empty line is stored, and erased by another one; a backspace there has no effect |
| Readline.EchoShows | lib/readline.c:26-29 | an echoed character appears after the line, which stays in the window even if it scrolls, as it has at most 1023 characters |
| Monitor.WordsAreRuns | kern/monitor.c:100-115 | the words of a line are exactly its maximal runs of non-blank characters, from left to right |
| Monitor.SplitLine | kern/monitor.c:97-116 | up to 15 words end up as the C strings at argv[0..argc), argv[argc] is null, every blank is a NUL and nothing else changed; a 16th word stops the split where it starts |
| Monitor.RunCmd | kern/monitor.c:90-127 | no words: nothing; 16 or more: no command; else the command named by the first word, if it is in the table |
| Monitor.StrCmp | lib/string.c:79-85 | returns 0 exactly for equal strings, and else the difference of the first two characters that differ |
| Monitor.StrChr | lib/string.c:100-107 | the index of the first occurrence, or -1 for the null pointer exactly if the character is not in the string; never that of the NUL |
| Shell.KernelMonitor | kern/monitor.c:129-144 | for every key sequence, and whatever is printed in between, the commands that are called and the strings they find in argv are those of the lines, each edited, cut into its maximal non-blank runs and looked up; what was typed after the last line end is in the buffer and on the screen |
| Shell.RunLine | kern/monitor.c:90-127 | a line runs the command named by its first word, which finds in argv exactly the words of the line |
| Shell.SplitStrings | kern/monitor.c:100-116 | after the split, argv[k] points to the C string of the k-th word |
| Shell.SessionConcat | kern/monitor.c:138-143 | lines ended earlier are run earlier and have no influence on later ones |
| Shell.SeparatorCuts | kern/monitor.c:100-115 | a tab, newline, carriage return or space cuts a line in two: its words are those before and then those after |
| Shell.WordAlone | kern/monitor.c:102-113 | characters without one of these are one word |
| Shell.CommandsByName | kern/monitor.c:24-26 | "help" calls the first command and "kerninfo" the second, any other word none; 16 words are too many |
| Shell.HelpWithArgument | kern/monitor.c:100-125 | "help" with an argument calls help with both words |
| Shell.PromptShows | kern/monitor.c:139 | the prompt is on the page before the line |
| Shell.PendingIs | lib/readline.c:30-34 | what is still being typed are the keys after the last line end |
| Boot.ReadSegEndsIff | boot/main.c:76-95 | the loop of readseg ends if and only if the segment does not end in the last sector of the address space |
| Boot.ReadSeg | boot/main.c:71-96 | the whole sectors around the segment come from the image, and nothing else changes, for addresses that wrap as well |
| Boot.ReadKeepsIff | boot/main.c:84-86 | a later read keeps an earlier segment on every disk if and only if its sectors do not meet the segment, or both put every byte of the image at the same place |
| Boot.SharedSector | boot/main.c:84-86 | two segments in increasing order that share a sector: with one file offset the later read destroys the earlier segment, with another it does not |
| Elf.BootElf | boot/main.c:38-67 | on a disk whose second sector starts with 7F 45 4C 46 and which holds, least significant byte first, an entry point, a header table and segments in increasing order of sectors, every byte of every segment is the disk's byte at 512 plus its file offset, nothing outside the sectors and the scratch page changes, and the loader jumps to the entry point |
| Elf.BootOther | boot/main.c:46-48 | without these four bytes it stops, and only the scratch page has changed |
| Elf.MagicIff | boot/main.c:47 | the magic number is these four bytes and no others |
| Boot.LoadStep | boot/main.c:53-56 | one more read turns the memory after k reads into that after k + 1 |
| Boot.InPlaceIff | boot/main.c:53-56 | the first n bytes of a segment are in memory after all reads, for every image with this header page and whatever was in memory before, if and only if the last read of each byte reads this byte (or one that the header page says is equal) |
| Boot.WellFormedIsInPlace | boot/main.c:84-86 | segments whose sectors line up with their file offsets, in increasing order by sectors, are all loaded |
| Boot.BootMain | boot/main.c:38-67 | with the magic number, as long as no sector changes a header field before it is read, memory is byte for byte what the last read of each address puts there, or what it was, although headers are re-read from memory; it jumps to the entry point; without the magic number only the header page changes |
| Paging.AddressOfParts | inc/mmu.h:33-42 | an address is put together again from directory index, table index and offset |
| Paging.PartsOfAddress | inc/mmu.h:33-42 | every choice of the three parts is an address with these parts |
| Paging.EntryMapping | kern/entrypgdir.c:20-34 | the boot tables map [KERNBASE, KERNBASE + 4MB) for writing and [0, 4MB) for reading to [0, 4MB), and nothing else |
| Paging.EntriesAre | kern/entrypgdir.c:20-34 | the entries of both tables, in numbers |
| Paging.MappedAddresses | kern/entrypgdir.c:20-34 | 0xf0000000 to 0xf0400000 are mapped to the first 4MB, these to themselves for reading, nothing else |
| Paging.ClearVirtual | kern/init.c:30 | clearing mapped virtual addresses zeros exactly the physical bytes behind them |
| Paging.LoadKernel | kern/init.c:22-30 | whenever the layout puts the file part of every segment in place, boot loader and BSS clear together give every segment its PT_LOAD meaning: file bytes up to p_filesz, zeros up to p_memsz |
| Paging.WellFormedFiles | boot/main.c:84-86 | segments in increasing order by sectors have such a layout |
| Paging.ClearCompletes | kern/init.c:27-30 | the BSS clear completes the last segment and leaves the others |
| Memory.Memmove | lib/string.c:141-169 | the compiled move leaves at dst what was at src, for overlapping regions in both directions and for words as for bytes, and changes nothing else |
| Memory.MemmoveBytes | lib/string.c:187-205 | so does the byte-wise version |
| Memory.MovedIsUnique | lib/string.c:141-205 | so the two versions leave the same memory |
| Memory.Memset | lib/string.c:120-139 | the compiled fill stores the low byte of c everywhere in the region, by replicated words if aligned, and changes nothing else |
| Memory.MemsetBytes | lib/string.c:173-185 | so does the byte-wise version for counts up to INT_MAX; for counts above 0x80000000 it changes nothing |
| Memory.MemsetsAgreeIff | lib/string.c:120-185 | the two versions leave the same memory if and only if the count is at most INT_MAX or the region holds c everywhere already |
| Memory.FilledIsUnique | lib/string.c:120-185 | a filled region determines the memory |
| Memory.ReplicatedBytes | lib/string.c:129-130 | every byte of the replicated word is the fill byte |

## Left out

- Stabs.StabBinsearch: on an unsorted table only the bounds and the step count are stated, and on a sorted one where the bump does harm not which other bracket is found if values repeat or the hits reach 0xffffffff; the sum l + r does not overflow, as a table of 12-byte entries has fewer than 2^29 of them.
- Printf.Vprintfmt: widths, precisions and the character count are unbounded, where C overflows beyond INT_MAX; the error code INT_MIN, for which `error_string` is indexed before its start, and arguments that do not match the format are excluded.
- Boot.BootMain: an image whose header table does not fit in its first page, or whose segments overwrite the header fields of a later segment or the entry point with other bytes, is excluded.
- Boot.ReadSeg: the segments on which the loop does not end (`ReadSegEndsIff`) are excluded; a sector read copies 512 bytes from a disk without errors, and of the sector number all bits are used.
- Memory.MemsetBytes: the count 0x80000000, for which the decrement of the least int overflows, is excluded.
- Shell.KernelMonitor: the greeting is left out, and what commands and complaints print is a parameter; commands do not change the line buffer, and return 0, so that the loop goes on as long as there are keys.
- Monitor.RunCmd: the commands themselves and the messages are not modelled; a call is the outcome `Invoke` with argc and argv.
- Readline.ReadLine: the branch for a negative character is left out, as `getchar` delivers bytes other than 0; keys are the sequence of these.
- InputRing.Getchar: waits only as long as the given sequence of polls, where C waits for ever.
- Paging.LoadKernel: what entry.S writes between the two steps (the warm-boot flag and the boot stack) is not modelled.
- Output to the console through `cprintf`, and its count, which is always 0 (kern/printf.c:13); only the prompt of `readline` is printed on the screen.
- `snprintf` and `printfmt` as variadic wrappers; arguments are a sequence of words, double words and strings.
- Keyboard.Keyboard.KbdProcData: the bits of `shift` are a record of truth values; the reboot itself is a result.
- Serial and parallel port, port I/O, the 6845 cursor registers, interrupts.
- Placement of the boot loader itself, whose code and stack the segments must not overwrite.
- `mon_backtrace`, `mon_kerninfo`, `_panic`, `_warn`: raw stack and printing.
- boot.S, entry.S, segment descriptors, the remaining string routines, the grading scripts and makefiles.
