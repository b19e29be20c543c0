# systemd-failed, modelled in Dafny

`systemd-failed` is a small Rust program that runs `systemctl --failed`,
looks for the first line marked with the bullet glyph `●` (U+25CF), mails the
listing up to the end of that line to an administrator through
`echo -e … | sendmail`, and logs a one-line summary of the failed units it
recorded. This project models the pure text handling of `src/main.rs`:

- the `FailedUnits` record (`number`, `messages`, `names`), `FailedUnits::new`
  and `add_failed`, which counts a line, keeps it verbatim and parses the unit
  name out of it (`failed_units.dfy`, module `Units`);
- the `Display` rendering of `FailedUnits` (`Units.Render`, and
  `Units.RenderLoop`, which builds the same text by pushes onto a buffer as
  the Rust code does);
- the slicing and message assembly of `run_check`: the header before the
  first `●`, the first bullet line, the single `add_failed` call and the mail
  text (`run_check.dfy`, module `Check`);
- the `str` operations they rely on, `find(c).unwrap_or(len)`,
  `trim_start` and `split_once`, and the buffer concatenation of the render
  loops (`text.dfy`, module `Text`).

Strings are sequences of Unicode scalar values. Rust's `find` and `drain`
work on UTF-8 byte offsets; on a decoded string a character boundary and a
character index name the same position, so the model uses character indices.
`trim_start` strips characters with the Unicode White_Space property, which is
what `Text.IsWhitespace` lists. The output of `systemctl --failed`, the
recipient address and the host name are parameters of `Check.RunCheck`.

`run_check` records only the first bullet line. It cuts the listing at the
first `●`, keeps that line, and calls `add_failed` once; later bullet lines
are never read. The code marks the unfinished parts with `// TODO: parse more`
and `// TODO: systemctl status --full` (src/main.rs:108-109). The raw line is
the only "message" kept, and `systemctl status` details are never fetched.
`add_failed` counts the line and keeps it even when it cannot parse a name, so
`names` may be shorter than `messages` (`Check.RunCheckUnnamed`). The name is
found by splitting on the ASCII space `' '` only, so tabs do not separate
fields, and two spaces in a row after the bullet give an empty name.

## Model

| member | source | states |
|---|---|---|
| Units.New | src/main.rs:54-60 | a fresh record counts nothing, holds no names, and satisfies the record invariant `number == |messages|`, `|names| <= number` |
| Units.FromBullet | src/main.rs:69-70 | the text kept after `drain(..beta_offset)` is a suffix of the line that starts at its first `●` and is empty exactly when the line holds no `●`; nothing dropped before it is a `●` |
| Units.NameAfterBullet | src/main.rs:71-79 | the two `split_once(' ')` steps yield no name from empty text, and any name they yield holds no space |
| Units.ExtractName | src/main.rs:67-79 | the parsed name never contains a space; a line without `●` yields no name; the result is the same with or without the leading-whitespace trim |
| Units.FromBulletAfterTrim | src/main.rs:67-70 | trimming leading whitespace does not change the text that starts at the first `●`, because whitespace never contains the bullet |
| Units.ExtractNameIff | src/main.rs:67-79 | `add_failed` parses the name `n` exactly when `n` is the space-free text between the first and the second space after the line's first `●` (both directions) |
| Units.ExtractNameOfUnitLine | src/main.rs:67-79 | a line shaped like `systemctl`'s, `<no bullet>● <unit> <rest>`, yields exactly `<unit>` |
| Units.ExtractNameOfBareUnit | src/main.rs:71-78 | `● <unit>` with no second space yields no name, so `add_failed` only logs the failure |
| Units.AddFailed | src/main.rs:61-83 | `number` grows by exactly one and the line is appended to `messages` unchanged whether or not a name is parsed; `names` grows by the parsed name or stays the same; the record invariant is preserved |
| Units.AddAllFromNew | src/main.rs:54-65 | from `new()`, any series of `add_failed` calls leaves `number` equal to the number of lines, `messages` equal to the lines in order, and no more names than lines |
| Units.Render | src/main.rs:29-51 | the text is `No failed units` exactly when `number` is 0, whatever the names; otherwise it starts with `Failed Units: [ `, ends with ` ]`, and has the length of the opening, every name with its separator, and the closing |
| Units.RenderLayout | src/main.rs:37-46 | each name appears at its offset in list order, followed by nothing when `number` is 1 and by `, ` (the last one too) when `number` is larger |
| Units.RenderOneUnit | src/main.rs:36-47 | a record with one counted line renders as `Failed Units: [ <name> ]`, or `Failed Units: [  ]` when no name was parsed |
| Units.PushNames | src/main.rs:38-45 | the render loops, pushing each name and then the separator, leave the buffer followed by every name and separator in order |
| Units.RenderLoop | src/main.rs:30-49 | the buffer-building code of `fmt`, with its branches on `number`, produces exactly the text `Render` describes |
| Text.IsWhitespace | src/main.rs:67 | the characters `trim_start` strips: among ASCII exactly space, tab, line feed, vertical tab, form feed and carriage return; never the bullet |
| Text.FindOrLen | src/main.rs:99 | `find(c).unwrap_or(len)` is the first position holding `c`, or the length when `c` does not occur |
| Text.TrimStart | src/main.rs:67 | `trim_start` removes only whitespace, all of the leading whitespace, and keeps the rest as a suffix |
| Text.SplitOnce | src/main.rs:71-72 | `split_once(' ')` fails exactly when there is no space, and otherwise splits around the first space |
| Check.MailHeader | src/main.rs:113 | the header is addressed `To: <mail>` and ends with the empty line `\r\n\r\n` that closes the header block |
| Check.SplitListing | src/main.rs:98-106 | the cut loses nothing (`pre + line + rest == listing`); `pre` holds no `●`; `line` holds no newline and is empty or starts with `●`; `rest` is empty or starts with a newline; `line` is empty exactly when the listing holds no `●` |
| Check.SplitListingUnique | src/main.rs:98-106 | those properties determine the cut: any three-way split satisfying them is the one `run_check` makes |
| Check.RunCheck | src/main.rs:98-120 | the run counts 1 unit if the listing holds a `●` and 0 otherwise, through one `add_failed` call on the first bullet line; a mail is sent exactly when there is a bullet; the mail is the fixed header followed by the listing up to the end of the line holding the first `●` |
| Check.RunCheckMail | src/main.rs:113-115 | for any text that quotes the listing up to the end of its first bullet line, the mail is exactly the header followed by that text, and that text is the part before the first `●` followed by the first bullet line |
| Check.RunCheckName | src/main.rs:102-120 | the run records the name `n` exactly when `n` is the name in the first bullet line; nothing from later lines is parsed |
| Check.RunCheckSummary | src/main.rs:170-177 | the `Display` text of the record that `main` logs after a successful run is `No failed units`, `Failed Units: [  ]` or `Failed Units: [ <name> ]` |
| Check.RunCheckFirstUnit | src/main.rs:105-120 | for a listing `<header>● <unit> <tail>` followed by more lines, the record is one line with name `<unit>`, the mail is the header text followed by the listing through that line, and the summary is `Failed Units: [ <unit> ]` |
| Check.RunCheckUnnamed | src/main.rs:105-120 | for a first bullet line `● <unit>` with no second space, the unit is counted and its line kept, but no name is recorded |
| Check.RunCheckNginx | src/main.rs:98-120 | the listing `UNIT LOAD\n● nginx.service loaded failed\n` records `nginx.service` and is summarised as `Failed Units: [ nginx.service ]` |

## Left out

- Spawning `systemctl --failed`, `echo -e` and `sendmail`, piping between them, and waiting for them (src/main.rs:89-96, 122-150) is operating-system I/O. The listing is a parameter. The mail text in the model is the argument handed to `echo -e`. The model does not cover `echo`'s handling of backslash escapes or its trailing newline.
- The `?` error returns of `run_check` when a process cannot be spawned or waited on are not modelled. They depend on the operating system, and no text is processed on those paths.
- The host-name lookup through `rustix::system::uname()` (src/main.rs:112) is a foreign call, so the host name is a parameter.
- UTF-8 decoding failures of `String::from_utf8` (src/main.rs:89, 112) are left out because strings are modelled as already-decoded characters. The `Err` branch of `String::from_str` (src/main.rs:81) is also left out, because that conversion cannot fail.
- The journal logger setup, the `info!`, `error!` and `println!` output, the `cfg!(unix)` check and the commented-out argument parsing (src/main.rs:13-20, 155-182) are side effects or dead code. A failed name parse is modelled as "no name appended". The summary text that `main` logs is covered through `Units.Render`.
- `String::with_capacity` (src/main.rs:32) is only a size hint and has no observable effect.
- `number` is a `usize` in Rust and a `nat` here. `run_check` increments it at most once, so it cannot wrap. `Units.AddAllFromNew` covers arbitrarily many calls, and for those the model does not include the 64-bit overflow check.
