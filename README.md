# letch, modelled in Dafny

letch prints the ASCII-art logo of the running Linux distribution. `main` picks a
distribution name: the first command-line argument if there is one, else the value of the
first `ID` line of `/etc/os-release`, else `linux`. It then chooses the file
`<asset dir>/logos/<name>`, or `<asset dir>/logos/linux` when that path does not exist. It reads
that file line by line and writes each line between ESC and ESC `[0m`.

The model treats files and the filesystem as inputs:

- a file's content is `Option<string>` (its text, or `None` when the stream cannot be opened);
- `std::filesystem::exists` is a predicate `pathExists: string -> bool`;
- opening a path is a function `open: string -> Option<string>`;
- the asset directory is a plain path parameter;
- argv is a `seq<string>` with the program name first.

Strings are sequences of Dafny `char`s, and one char stands for one byte of a `std::string`.
`std::regex_match` and `std::getline` work on those bytes. The only characters they treat
specially, `"` and `'\n'`, are ASCII, so matching and splitting come out the same.

Modules, one per concern of main.cpp:

- `Wrappers`: `Option`.
- `LineReader`: what repeated `std::getline` calls read from a text (`Lines`). One call is
  `NextLine`. `JoinLines` is its inverse, with round trips in both directions.
- `OsRelease`: the language of the pattern `^ID="?([^"\n]+)"?` under full match
  (`MatchesIdLine`). `ParseIdLine` is proved to accept exactly that language with exactly
  its capture. Also: the first match wins, later lines are ignored, and the default is `linux`.
- `LogoPath`: POSIX `std::filesystem::path::operator/` (`PathJoin`) and the choice between
  the named logo and the fallback.
- `Output`: the text `render` writes, and its line-by-line decoding.
- `Fetch`: the `FetchData` class with its two loading loops as methods, `render` as a
  method, and `main` as `Run`.

Behaviour of main.cpp worth noting:

- The code falls back to `logos/linux` only when the candidate path does not exist. A
  candidate that exists but cannot be opened gives an empty logo.
- An argument is taken verbatim, so the name can be empty or an absolute path. Joining
  an absolute name replaces the whole path (`AbsoluteNameReplacesPath`).
- main.cpp prints only the logo lines: there is no border, username or hostname.

## Model

| member | source | states |
|---|---|---|
| LineReader.NewlineIndex | main.cpp:39 | the position where `getline` stops: at most the text's length, and a '\n' when inside the text |
| LineReader.Lines | main.cpp:39 | the lines `getline` reads from a text: never more lines than characters (`JoinOfLines` and `LinesOfJoin` pin them down exactly) |
| LineReader.NextLine | main.cpp:39 | one `getline` call advances the position and yields the next of the text's lines, the rest following unchanged |
| LineReader.LinesHaveNoNewline | main.cpp:57 | no line read by `getline` contains '\n' |
| LineReader.LinesOfJoin | main.cpp:57 | lines without '\n' written one per line are read back exactly |
| LineReader.JoinOfLines | main.cpp:57 | reading and rewriting lines reproduces the text, adding a '\n' only if the last one was missing ('\r' is kept) |
| LineReader.CarriageReturnKept | main.cpp:57 | '\r' stays in the line; no empty line after a final '\n'; a last line without '\n' is read |
| OsRelease.ParseIdLine | main.cpp:38-41 | a value found means the whole line is `ID=`, an optional quote, that value, an optional quote |
| OsRelease.ParseIdLineExact | main.cpp:38-41 | the parser returns `x` exactly when the line is in the pattern's language with capture `x` (both directions) |
| OsRelease.CaptureUnique | main.cpp:38-41 | a matching line has only one possible capture |
| OsRelease.AcceptedExamples | main.cpp:38-41 | `ID="ubuntu"`, `ID=ubuntu`, `ID="ubuntu`, `ID=ubuntu"` all give `ubuntu`; a '\r' stays in the value |
| OsRelease.RejectedExamples | main.cpp:38-40 | `ID_LIKE=debian`, `VERSION_ID="22.04"`, `ID=`, `ID=""`, `ID=a"b` do not match |
| OsRelease.RejectsWithoutIdPrefix | main.cpp:38-40 | a line not starting with `ID=` (a leading space, say) matches no capture |
| OsRelease.FirstIdValue | main.cpp:39-42 | a value found is non-empty and free of '"' and '\n' |
| OsRelease.ResolveDistroName | main.cpp:32-42 | the name from os-release lines is always a non-empty value free of '"' |
| OsRelease.DetectDistroName | main.cpp:32-45 | the name is a valid value, `linux` when the file cannot be opened |
| OsRelease.FirstMatchWins | main.cpp:39-42 | the first matching line, with none before it, decides the name |
| OsRelease.FirstIdValueHasWitness | main.cpp:39-42 | any value found comes from a matching line with no earlier match |
| OsRelease.NoMatchGivesDefault | main.cpp:32-44 | nothing is found exactly when no line matches, and the name is then `linux` |
| OsRelease.LaterLinesIgnored | main.cpp:39-42 | lines after a match cannot change the result; without a match in the front, the back decides |
| OsRelease.DetectExamples | main.cpp:32-45 | `ID="ubuntu"` followed by `VERSION="22.04"` names `ubuntu`; no file names `linux` |
| LogoPath.SelectLogoPath | main.cpp:53-54 | the path is the named logo when it exists, else the `linux` logo; never anything else |
| LogoPath.PathJoin | main.cpp:53 | POSIX `operator/`: an absolute right side replaces the path; otherwise the left side is a prefix and the right side a suffix, with one '/' between them exactly when the left side is non-empty and does not end in '/' |
| LogoPath.LogoFile | main.cpp:53-54 | `dir / "logos" / name`: an absolute name is the whole path; otherwise the path ends in `logos/` followed by the name |
| LogoPath.LogoFileLiteral | main.cpp:53-54 | for an absolute asset dir without a trailing '/' and a relative name, the paths are `dir/logos/name` and `dir/logos/linux` |
| LogoPath.RootDirLogoFile | main.cpp:53-54 | for the asset dir `/` and a relative name, the paths are `/logos/name` and `/logos/linux`, with no doubled '/' |
| LogoPath.AbsoluteNameReplacesPath | main.cpp:53 | an absolute name replaces the asset directory entirely |
| LogoPath.LinuxNameIsFallback | main.cpp:53-54 | asking for `linux` gives the fallback file whatever exists |
| Output.Rendered | main.cpp:67-70 | the text `render` writes: empty exactly for an empty logo, and otherwise ending in the newline of the last line |
| Output.RenderedAppend | main.cpp:68-70 | printing one more line appends exactly its segment |
| Output.DecoratedParts | main.cpp:69 | a segment is the line between one ESC and ESC `[0m`, adds no '\n', and the line can be recovered from it |
| Output.RenderedIsJoin | main.cpp:68-70 | the output is the decorated lines, each newline-terminated, in order |
| Output.RenderedSegments | main.cpp:67-70 | the output read back has one segment per logo line, in order, each ESC + line + ESC `[0m`; empty exactly for an empty logo |
| Fetch.LoadedLogo | main.cpp:56-59 | lines loaded from a file never contain '\n'; none when it cannot be opened |
| Fetch.FetchData.constructor | main.cpp:32-33 | a fresh record has name `linux` and no logo lines |
| Fetch.FetchData.InitDistroName | main.cpp:35-46 | the name becomes the first match's value; otherwise, or with no file, it is unchanged; the logo is untouched |
| Fetch.FetchData.InitDistroLogo | main.cpp:48-61 | the logo gains the chosen file's lines in order and unmodified, nothing when it cannot be opened; the name is unchanged |
| Fetch.Render | main.cpp:65-71 | the text written is the rendering of the record's logo lines |
| Fetch.ChooseName | main.cpp:78-79 | with `argc != 1` the name is `argv[1]`; with `argc == 1` it is the os-release name, non-empty and without '"' |
| Fetch.Run | main.cpp:74-83 | the program's output is the rendering of the file chosen for the argument-or-detected name |
| Fetch.ArgumentOverrides | main.cpp:78-79 | with an argument the name is `argv[1]` verbatim and os-release makes no difference |
| Fetch.DetectedNameIsIdValue | main.cpp:79 | without an argument the name is the detected one, non-empty and without '"' |
| Fetch.MissingLogoFallsBack | main.cpp:53-54 | an argument whose logo path does not exist shows the `linux` file's lines verbatim |
| Fetch.OutputSegments | main.cpp:65-83 | the output has one segment per line of the chosen logo file, and is empty when it cannot be opened |

## Left out

- `SourceDir` (main.cpp:8-27): resolving the binary's directory needs the real filesystem, so the asset directory is a parameter.
- File I/O: opening, `std::filesystem::exists` and reading are inputs. A read error in the middle of a file is not modelled.
- A directory opened as a file: it counts as a file that opens with no lines. The caller's `open` gives `Some("")` for it.
- A `filesystem_error` thrown by `exists`: it would end the program and is not modelled.
- The regular-expression engine: only the language of the one pattern is modelled.
- Writing to standard output and the flush of `std::endl`: only the text is modelled.
- `Run` requires at least one argv entry, since `main` reads `argv[0]` and `argc == 0` is undefined behaviour there.
