# lines-of-code, modelled in Dafny

`lines-of-code` is a small command-line tool. It takes a directory and an
optional comma-separated list of file extensions. It walks the directory
tree depth-first and counts the lines of every file whose extension passes
the filter. It prints one `<path>: <count>` row per file, then the total.
The first error of any kind ends the run.

This project models the pure rules around that I/O:

- `Text` holds a single-character splitter and its inverse, `Join`. Both the
  extension list and the line counter are built on it.
- `Args` is the argument reader (`get_args`). The directory defaults to `"."`.
  The second argument is cut at every `,` into literal pieces. When it is
  absent the filter is empty.
- `Walk` is the tree walker (`get_files`, `visit_directory`). It runs over an
  abstract filesystem. A `Node` is either a file, carrying its extension
  (`Option<string>`), or a directory. A directory carries a readable flag and
  its entries in listing order. An `Entry` is a named node, or `Broken`, which
  stands for a listing item the OS failed to produce (`entry?`).
  Paths are component lists: the root is `[directory]`, and each entry appends
  its name.
- `LineCount` is the count of `str::lines` on a text (`lines_of_code`).
- `Report` is the loop in `main`. It counts each file in order and keeps a
  running total. The first unreadable file ends it. The printed output becomes
  an `Outcome`: the rows printed, then either the total or the error.

Inputs that the program gets from the operating system become parameters.
The argument list is `argv: seq<string>`, without the program name. The
filesystem at the directory argument is `root: Option<Node>`, where `None`
means nothing exists there. File contents come from
`read: Path -> Option<string>`, where `None` stands for an I/O error or
invalid UTF-8.

A directory argument that names nothing is not an error. `visit_directory`
checks `is_dir()` first, and that is false for a missing path. So the walk
returns `Ok` with no files, and the run prints a total of 0
(`Report.NothingToCount`).

## Model

| member | source | states |
|---|---|---|
| Text.Split | src/main.rs:57 | cutting at every separator gives exactly one more piece than there are separators, and no piece contains the separator |
| Text.JoinSplit | src/main.rs:57 | joining the pieces of a split with the separator reproduces the input exactly |
| Text.SplitConcat | src/main.rs:57 | splitting at a separator placed between two strings gives the pieces of the first followed by the pieces of the second |
| Text.SplitJoin | src/main.rs:57 | any non-empty list of separator-free pieces is recovered by splitting its join, so the split is the only such decomposition |
| Args.GetArgs | src/main.rs:54-62 | the directory is the first argument or `"."`; the filter is empty exactly when there is no second argument; otherwise it has one piece more than the argument has commas, and no piece contains a comma |
| Args.ExtensionsRoundTrip | src/main.rs:57 | joining the parsed extensions with `,` gives back the second argument, and no other comma-free list does |
| Args.EmptyExtensionArgument | src/main.rs:57 | an empty second argument gives the one-element filter `[""]`, not "no filter" |
| Walk.Matches | src/main.rs:82-83 | a file needs an extension, and the extension is in the filter or the filter is empty |
| Walk.VisitDirectory | src/main.rs:70-91 | on success, what `files` held before is a prefix of the result, and every added path lies strictly under the visited directory |
| Walk.VisitEntries | src/main.rs:76-87 | the same append-only and under-the-directory guarantees hold for the walk over one listing |
| Walk.VisitEntry | src/main.rs:77-86 | the same guarantees hold for one listing item, whether it is a subdirectory recursed into or a file appended |
| Walk.GetFiles | src/main.rs:64-68 | a root that does not exist or is not a directory yields `Ok` with no files |
| Walk.VisitSucceedsIffIntact | src/main.rs:75-77 | the walk succeeds if and only if every reachable directory can be listed and no listing yields a failed entry |
| Walk.EntriesSucceedIffIntact | src/main.rs:76-81 | the walk of one listing succeeds if and only if each entry is readable and each subdirectory under it is intact |
| Walk.EntrySucceedsIffIntact | src/main.rs:77-81 | one listing item is handled without error if and only if it was produced and, when it is a directory, that directory is intact |
| Walk.VisitSound | src/main.rs:80-85 | every added path leads through the tree to a non-directory entry that has an extension, and that extension is in the filter or the filter is empty |
| Walk.EntriesSound | src/main.rs:80-85 | every path added from a listing starts with the name of one of its entries and leads to a matching file below it |
| Walk.EntrySound | src/main.rs:80-85 | every path added for one item is the item's own path when it is a matching file, or leads from its name to a matching file below it |
| Walk.VisitComplete | src/main.rs:75-87 | on a successful walk of a directory, every path in the tree that leads to a matching file is among the added paths |
| Walk.EntriesComplete | src/main.rs:76-87 | on a successful walk of a listing, every matching file below any of its entries is among the added paths |
| Walk.EntryComplete | src/main.rs:80-85 | on success, every matching file at or below one item is among the paths added for it |
| Walk.VisitFromAnyPrefix | src/main.rs:73 | the walk only appends: its result from any `files` is `files` followed by its result from the empty list, and errors do not depend on `files` |
| Walk.EntriesFromAnyPrefix | src/main.rs:84 | the same append-only decomposition holds for the walk over one listing |
| Walk.EntryFromAnyPrefix | src/main.rs:84 | handling one item appends to `files` and does not depend on what it held |
| Walk.EntriesConcat | src/main.rs:76-87 | walking a listing in order is walking its first part, then the rest starting from the files found so far; a failure in the first part ends the walk |
| Walk.GetFilesCorrect | src/main.rs:64-91 | the walk from the arguments fails exactly when a reachable directory or entry is unreadable; on success it holds only matching files under the root, and every one of them when the root is a directory |
| Walk.RustFilesExample | src/main.rs:80-85 | a tree with `a.rs`, `b.txt` and `sub/c.rs` under the filter `rs` gives `./a.rs` then `./sub/c.rs` |
| LineCount.Lines | src/main.rs:95 | no line contains `'\n'` |
| LineCount.LinesCount | src/main.rs:95 | the number of lines is the number of `'\n'`, plus one when the text is non-empty and does not end in `'\n'` |
| LineCount.CountLines | src/main.rs:93-96 | the one-pass count equals the number of lines of the text, and also equals the newline formula |
| LineCount.CountIgnoresOtherChars | src/main.rs:95 | two texts of the same length with `'\n'` at the same positions have the same number of lines, so a `'\r'` counts like any other non-newline character |
| LineCount.TerminatorOptional | src/main.rs:95 | adding a final `'\n'` to a non-empty unterminated text without a trailing `'\r'` leaves its lines unchanged |
| LineCount.LinesRoundTrip | src/main.rs:95 | for a text in which no `'\r'` comes directly before a `'\n'`, joining its lines with `'\n'` and restoring a final terminator, if it had one, gives back the text |
| LineCount.CrLfLikeLf | src/main.rs:95 | a `"\r\n"` terminator gives the same lines as a bare `'\n'`, provided the text before it does not itself end in `'\r'` |
| LineCount.Examples | src/main.rs:95 | `""` has 0 lines; `"a\nb\nc"` has the lines `a`, `b`, `c`; `"a\nb\nc\n"` has 3 lines |
| Report.CountFiles | src/main.rs:16-25 | the loop prints one row per file, in order, with that file's line count, until the first unreadable file, whose error ends the run; if every file can be read, the total is the sum of the rows |
| Report.Run | src/main.rs:13-34 | a failed walk ends the run with that error and no rows; otherwise the outcome accounts for the walked files as `CountFiles` does |
| Report.AccountsUnique | src/main.rs:15-25 | the outcome is determined by the inputs, so running twice on an unchanged tree gives identical output |
| Report.FailsIffUnreadable | src/main.rs:17-18 | once the walk has succeeded, counting fails if and only if some walked file is unreadable, and it stops at the first one |
| Report.NothingToCount | src/main.rs:75 | when the directory argument names nothing or names a file, the run prints no rows and a total of 0 |

## Left out

- Terminal output is not modelled: styling, colours, the 80-character separator and its glyph string (src/main.rs:11-12, 19-23, 26-32, 37-39, 45-47). The `Outcome` records which rows and which ending would be printed. Failures to write to the terminal are not modelled.
- Process plumbing is not modelled: `env::args`, `std::process::exit` and the exit status. `argv` is a parameter, and a run that ends in `Failed` stands for exit status 1.
- `fs::read_dir`, `is_dir` and `read_to_string` are replaced by the abstract tree and the `read` parameter. A UTF-8 decoding failure is one of the reasons `read` returns `None`.
- Rust's `Path::extension()` rules (dotfiles, trailing dots) live in the standard library. Each file node carries its extension as data. That extension is the string the filter test at src/main.rs:83 compares: `to_string_lossy()` of the raw extension, so a non-UTF-8 extension is stored with U+FFFD in place of each invalid sequence.
- Symbolic links and cycles are not modelled. The tree is finite, and a symlink to a directory is simply a `Dir` node. Listing order is whatever the entry sequence says.
- Path joining is modelled as appending a component. Absolute entry names and OS separator rules are not modelled.
- The per-file and total counts are unbounded `nat`s, so `usize` overflow of the total is not modelled.
- LineCount.Lines: a bare `'\r'` at the very end of an unterminated last line is kept. This follows current Rust. Older Rust releases stripped it. The number of lines is the same either way.
- Error messages are not modelled. An error is modelled by where it arose: the directory that could not be listed, the listing that yielded a failed entry, or the file that could not be read. The program prints only the OS message of the underlying `io::Error` (src/main.rs:38), and that message names no path.
- Arguments that are not valid Unicode make `env::args` panic. They are not modelled, because `argv` is already a list of strings.
