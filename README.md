# TemplatesManager registries in Dafny

TemplatesManager is a launcher workflow that keeps two registries of
templates and copies a chosen one into the directory of the front Finder
window. Local templates are files or directories copied into a storage
directory. Remote templates are URLs kept one per line in a text file.
Every command takes a path, a URL or an ordinal position in a freshly
computed listing, does its work and ends the process.

This project models the command logic of `TemplatesManager/source/tmfunctions.rb`:

- `RubyArray` (ruby_array.dfy): how Ruby resolves `ary[pos]` and
  `ary.delete_at(pos)`. A position that does not fit a 64-bit signed `long`
  raises `RangeError`. A negative position counts from the end. Any other
  out-of-range position gives nil. Also: removing a name from a listing.
- `RubyText` (ruby_text.dfy): `File.basename`, `gsub(/\n$/, '')`, the
  decimal text of a position, and unanchored substring matching.
- `RubyIO` (ruby_io.dfy): `File.readlines`, which keeps each line's newline,
  and `IO#puts` on a string and on an array.
- `DirEntries` (dir_entries.dfy): the `local_list` filter, using Ruby's
  line-anchored regexp semantics, and the hook-script search of
  `local_script_run`.
- `Render` (render.dfy): `local_info` and `remote_info`. These are loops that
  emit the listing document line by line.
- `TemplatesManager` (templates_manager.dfy): the class `Registries`. It holds
  the storage directory's entries (`Dir.entries`, in enumeration order) and
  the remote file's full text. Its methods are the add, delete, put and print
  commands. Each returns an `Outcome`: the external effects in order, and
  whether the process completed, aborted after a notification, or raised an
  uncaught Ruby exception.

The remote file is modelled as its text rather than as a list of URLs. The
listing is `ReadLines(text)`. So the model keeps what the code really
compares and writes: every line read still ends with `"\n"`. `puts` adds a
newline only when the string lacks one. An unfinished last line joins the
next URL appended.

Where the design description and the code differ, the model follows the code:

- Remote listing: the design speaks of the file's non-empty lines. `readlines`
  returns every line, blank lines included, each with its newline.
- Remote add: the design promises unique URLs. The code compares the new URL
  with lines that still carry their newline. A URL given without a newline
  is therefore never found on a file the commands wrote, and adding it twice
  stores it twice (`RemoteAddTwice`).
- Remote delete of the only line: `puts []` writes one newline. The file then
  holds one blank line, so the next `remote_info` shows one selectable item
  with an empty-looking title, not the placeholder (`RemoteDeleteLines`).
- Positions: negative positions are accepted and count from the end.
  Positions out of range raise `TypeError` (local) or `NoMethodError`
  (remote); remote delete alone treats them as "delete nothing". A position
  beyond the 64-bit `long` range raises `RangeError` in every command; remote
  delete then stops before reopening the file, which stays as it was.
- Hidden entries: the filter's `^` and `$` match at line boundaries, and the
  first `.` of `.DS_Store` matches any one character. So "xDS_Store" and
  "notes\n.." are hidden too.
- Hook script: any entry whose name contains `_templatesmanagerscript.`
  anywhere is a hook, not only names starting with it.

## Model

| member | source | states |
|---|---|---|
| `RubyArray.ResolveIndex` | TemplatesManager/source/tmfunctions.rb:139 | `ary[pos]` reads an element exactly when -n <= pos < n, and the element read is at pos or pos + n |
| `RubyArray.DeleteAt` | TemplatesManager/source/tmfunctions.rb:75 | `delete_at` removes only the element at the resolved position and shifts the later ones down by one, losing nothing else; an unresolvable position changes nothing |
| `RubyArray.Remove` | TemplatesManager/source/tmfunctions.rb:70 | moving an entry to the trash leaves exactly the other names, none of them lost |
| `RubyArray.RemoveUniqueAt` | TemplatesManager/source/tmfunctions.rb:69-71 | in a listing without duplicates, trashing the name found at position i is deleting position i |
| `RubyText.Basename` | TemplatesManager/source/tmfunctions.rb:46 | `File.basename` is empty only for the empty path, and a basename containing '/' is "/" itself |
| `RubyText.BasenameIsLastSegment` | TemplatesManager/source/tmfunctions.rb:46 | any other basename is the non-empty last segment of the path once trailing slashes are dropped |
| `RubyText.BasenameSlash` | TemplatesManager/source/tmfunctions.rb:46 | the basename is "/" exactly for a non-empty path made only of slashes |
| `RubyText.BasenameIdempotent` | TemplatesManager/source/tmfunctions.rb:116 | the title of a remote item is its own basename |
| `RubyText.BasenameOfJoin` | TemplatesManager/source/tmfunctions.rb:166 | for `dir/name` and `dir/name/` the basename is `name`: the file name `remote_put` derives is the URL's last path segment |
| `RubyText.StripLineEnds` | TemplatesManager/source/tmfunctions.rb:165 | the substitution only deletes characters: it never lengthens the URL or introduces a character |
| `RubyText.StripLineEndsOfLine` | TemplatesManager/source/tmfunctions.rb:165 | on a line as `readlines` gives it, the substitution removes exactly the trailing newline, and leaves a newline-free string unchanged |
| `RubyText.Decimal` | TemplatesManager/source/tmfunctions.rb:94 | the interpolated position is a non-empty string of decimal digits without a leading zero |
| `RubyText.DecimalRoundTrip` | TemplatesManager/source/tmfunctions.rb:94 | the decimal text of a position reads back as that position |
| `RubyIO.ReadLines` | TemplatesManager/source/tmfunctions.rb:33-35 | `readlines` gives no line exactly for an empty file, and never more lines than characters |
| `RubyIO.ReadLinesShape` | TemplatesManager/source/tmfunctions.rb:33-35 | every line read is non-empty with no newline before its end, every line but the last is complete, and the last is complete exactly when the text ends with a newline |
| `RubyIO.CompleteLines` | TemplatesManager/source/tmfunctions.rb:34 | every line of a text ending in a newline is complete |
| `RubyIO.ConcatReadLines` | TemplatesManager/source/tmfunctions.rb:34 | writing the lines read back one after another gives the text again |
| `RubyIO.ReadLinesAppend` | TemplatesManager/source/tmfunctions.rb:62-64 | text appended to a file that ends in a newline adds lines after the old ones and changes none of them |
| `RubyIO.ReadLinesOfLine` | TemplatesManager/source/tmfunctions.rb:34 | a single complete line reads back as itself |
| `RubyIO.ReadLinesOfConcat` | TemplatesManager/source/tmfunctions.rb:77-79 | complete lines written one after another read back as the same lines |
| `RubyIO.ConcatOfLinesTerminated` | TemplatesManager/source/tmfunctions.rb:77-79 | complete lines written one after another leave the file ending in a newline |
| `RubyIO.PutsText` | TemplatesManager/source/tmfunctions.rb:63 | `puts s` writes s, followed by a newline exactly when s is empty or does not end in one |
| `RubyIO.PutsLines` | TemplatesManager/source/tmfunctions.rb:78 | `puts` of an array writes each element in order as `puts` of that element |
| `RubyIO.PutsArray` | TemplatesManager/source/tmfunctions.rb:78 | `puts` of an empty array writes a single newline; of any other array, its elements one after another, each as `puts` writes it |
| `RubyIO.PutsTextIsLine` | TemplatesManager/source/tmfunctions.rb:63 | `puts` of a string with no newline before its end writes one complete line |
| `RubyIO.ReadLinesOfPutsArray` | TemplatesManager/source/tmfunctions.rb:77-79 | rewriting the file with `puts` of lines read gives back those lines, each completed, or one blank line for an empty array; the file ends in a newline |
| `RubyIO.PutsLinesOfTerminated` | TemplatesManager/source/tmfunctions.rb:77-79 | the lines of a file ending in a newline are written back unchanged |
| `RubyText.Contains` | TemplatesManager/source/tmfunctions.rb:130 | a name that contains the pattern is at least as long as it, and a name starting with the pattern contains it |
| `RubyText.ContainsInContext` | TemplatesManager/source/tmfunctions.rb:130 | the match is unanchored: text before and after an occurrence leaves it found |
| `DirEntries.Hidden` | TemplatesManager/source/tmfunctions.rb:30 | the empty name is never rejected; ".", ".." and any character other than a newline followed by "DS_Store" always are |
| `DirEntries.HiddenSingleLine` | TemplatesManager/source/tmfunctions.rb:30 | a one-line name is rejected exactly when it is ".", ".." or any character followed by "DS_Store" |
| `DirEntries.HiddenLaterLine` | TemplatesManager/source/tmfunctions.rb:30 | a name is rejected when the text after one of its newlines would be: "notes\n.." is rejected like ".." |
| `DirEntries.LocalListing` | TemplatesManager/source/tmfunctions.rb:29-31 | the listing holds exactly the entries that are not rejected, and is no longer than the entries |
| `DirEntries.LocalListingAppend` | TemplatesManager/source/tmfunctions.rb:30 | the listing keeps the enumeration order: the listing of two stretches of entries is their listings one after the other |
| `DirEntries.LocalListingNoDuplicates` | TemplatesManager/source/tmfunctions.rb:29-31 | distinct entries give a listing without duplicates |
| `DirEntries.LocalListingRemove` | TemplatesManager/source/tmfunctions.rb:69-71 | removing a name from the entries removes it from the listing and changes nothing else there |
| `DirEntries.FindHook` | TemplatesManager/source/tmfunctions.rb:130 | the hook is the first entry whose name contains "_templatesmanagerscript.", and there is none exactly when no entry contains it |
| `Render.LocalInfo` | TemplatesManager/source/tmfunctions.rb:82-102 | the document opens with the XML header and `<items>` and closes with `</items>`; an empty listing gives only the placeholder item with uuid and arg 'none' and valid='no'; otherwise the four lines of item i are the item for position i, titled with entry i, in listing order |
| `Render.RemoteInfo` | TemplatesManager/source/tmfunctions.rb:104-126 | as `local_info`, with five lines per item: the title is the basename of line i and the subtitle is line i itself, newline included |
| `Render.ItemArgAddressesEntry` | TemplatesManager/source/tmfunctions.rb:94 | the arg of the item at position i reads back as i and resolves to entry i of the same listing |
| `TemplatesManager.ScriptRun` | TemplatesManager/source/tmfunctions.rb:129-135 | nothing runs when no entry holds the marker; otherwise exactly the first entry holding it runs, from the given directory |
| `TemplatesManager.WithEntry` | TemplatesManager/source/tmfunctions.rb:52 | after the copy the directory holds its old entries plus the copied name, still without duplicates |
| `TemplatesManager.LocalAddListing` | TemplatesManager/source/tmfunctions.rb:45-55 | an add that goes ahead leaves every listed name in place and adds the new name once, at the end, unless the filter hides that name |
| `TemplatesManager.LocalDeleteListing` | TemplatesManager/source/tmfunctions.rb:69-71 | deleting position i removes exactly entry i from the listing and keeps the others in order |
| `TemplatesManager.RemoteDuplicateCheck` | TemplatesManager/source/tmfunctions.rb:58 | a URL without newline equals one of the lines exactly when it is the file's unfinished last line |
| `TemplatesManager.RemoteAddAppendsLine` | TemplatesManager/source/tmfunctions.rb:62-64 | on a file ending in a newline, adding a URL without newline appends `url + "\n"` as the new last line and keeps the earlier lines |
| `TemplatesManager.RemoteAddTwice` | TemplatesManager/source/tmfunctions.rb:57-67 | on such a file the same URL is accepted twice and is then stored on two lines |
| `TemplatesManager.RemoteDeleteLines` | TemplatesManager/source/tmfunctions.rb:73-80 | after a delete the file reads back as the remaining lines, each completed, or as one blank line when none remain, and it ends in a newline |
| `TemplatesManager.RemoteDeleteOneOfTwo` | TemplatesManager/source/tmfunctions.rb:73-80 | of two complete lines, deleting position 0 leaves the second and deleting -1 leaves the first |
| `TemplatesManager.RemotePutTarget` | TemplatesManager/source/tmfunctions.rb:165-166 | the URL fetched from a stored line `site/name\n` is `site/name`, and the file written is called `name` |
| `TemplatesManager.Registries.constructor` | TemplatesManager/source/tmfunctions.rb:7-8 | the storage directory is the data root followed by "/local/"; the registries start with the given entries and file text |
| `TemplatesManager.Registries.LocalList` | TemplatesManager/source/tmfunctions.rb:29-31 | a name is listed exactly when it is an entry of the storage directory the filter does not reject |
| `TemplatesManager.Registries.RemoteList` | TemplatesManager/source/tmfunctions.rb:33-35 | the lines listed, written one after another, are the whole file, and there are none exactly when the file is empty |
| `TemplatesManager.Registries.LocalAdd` | TemplatesManager/source/tmfunctions.rb:45-55 | a basename already listed is refused with a notification, then an abort, and nothing changes; otherwise the path is copied into storage, a notification follows, and the entries gain the basename |
| `TemplatesManager.Registries.RemoteAdd` | TemplatesManager/source/tmfunctions.rb:57-67 | a URL equal to a line as read, newline included, is refused with a notification and an abort, and the file is unchanged; otherwise `puts url` is appended |
| `TemplatesManager.Registries.LocalDelete` | TemplatesManager/source/tmfunctions.rb:69-71 | the entry at the resolved position of a fresh listing goes to the trash and leaves the entries; an unresolvable position raises `TypeError`, and a position beyond a `long` raises `RangeError`, before anything is trashed |
| `TemplatesManager.Registries.RemoteDelete` | TemplatesManager/source/tmfunctions.rb:73-80 | a position beyond a `long` raises `RangeError` and leaves the file as it was; any other position completes, the file becoming `puts` of the lines read with the one at the position deleted, and ending in a newline |
| `TemplatesManager.Registries.LocalPut` | TemplatesManager/source/tmfunctions.rb:138-146 | the entry is copied into the target directory first; the hook search of the copied item follows only when the copy is a directory; no entry raises `TypeError`, a position beyond a `long` `RangeError` |
| `TemplatesManager.Registries.LocalPutFilesOnly` | TemplatesManager/source/tmfunctions.rb:149-162 | a regular file is refused with a notification and an abort before any copy or script; otherwise the entry's children, never the entry itself, are copied and the hook search of the target directory follows; no entry raises `TypeError`, a position beyond a `long` `RangeError` |
| `TemplatesManager.Registries.RemotePut` | TemplatesManager/source/tmfunctions.rb:164-168 | the line at the position, stripped of its line-ending newline, is fetched into the target directory under its basename; no line raises `NoMethodError`, a position beyond a `long` `RangeError` |
| `TemplatesManager.Registries.RemotePrint` | TemplatesManager/source/tmfunctions.rb:170-173 | the stripped line at the position is fetched to standard output; no line raises `NoMethodError`, a position beyond a `long` `RangeError` |

## Left out

- `finder_dir` (tmfunctions.rb:12-23) asks AppleScript for the front window's folder. Its result, with the trailing newline replaced by '/', is the parameter `finderDir`. `local_put` calls it twice (lines 141 and 144), and so does `local_put_files_only` (lines 157 and 160). The model uses one value for both calls of each command.
- `notification` (tmfunctions.rb:25-27) calls a third-party notifier. It is the `Notify` effect, which always comes before an abort.
- `local_edit` and `remote_edit` (tmfunctions.rb:37-43) only ask the system to open a folder or file in an editor.
- The startup code (tmfunctions.rb:7-10) reads `ENV`, creates the storage directory and touches the remote file. The constructor takes the data root, the entries and the file text instead.
- The file system questions the commands ask are parameters: `File.file?` of the entry, `File.directory?` of the copy, and `Dir.entries` of the directory searched for a hook.
- `FileUtils.cp_r`, the trash tool, `Net::HTTP.get` and running the hook script are effects, not modelled in their own right. The model assumes the trash tool removes the entry; its exit status is never checked.
- `CopyChildren` does not record which children are copied. `Dir[dir + '/*']` skips names that start with a dot.
- Failures of the file system or network are not modelled: permission errors, missing files, HTTP errors. In Ruby they end the process with an uncaught exception.
- `TemplatesManager.WithEntry` puts a newly copied name last. The real enumeration order after a copy is up to the file system.
- `Render.LocalInfo` and `Render.RemoteInfo` render one snapshot of the listing. The Ruby code re-reads the directory or file on every iteration, so a change made during rendering could show.
- The output is modelled as the strings passed to `puts`. Each one reaches standard output followed by a newline. Nothing is XML-escaped, and the model does not escape anything either.
- Positions are integers. Turning the launcher's argument text into an integer happens outside this file.
