/** The commands of TemplatesManager over its two registries: a storage
    directory of local templates (modelled by its entry names in enumeration
    order) and a text file of remote template URLs, one per line. Each
    command reports the external effects it performs, in order, and how the
    process ends: normally, through `abort` after a notification, or through
    an uncaught Ruby exception when a position addresses no entry. */
module TemplatesManager {
  import opened RubyArray
  import opened RubyText
  import opened RubyIO
  import opened DirEntries

  /** What a command asks of the outside world. */
  datatype Effect =
    | Notify(message: string)                       // TerminalNotifier, title 'TemplatesManager'
    | CopyTree(source: string, destination: string)  // FileUtils.cp_r(source, destination)
    | CopyChildren(directory: string, destination: string)  // FileUtils.cp_r(Dir[directory + '/*'], destination)
    | MoveToTrash(path: string)                     // the bundled trash tool, `trash -a path`
    | RunScript(directory: string, command: string) // Dir.chdir(directory); system(command)
    | FetchToFile(url: string, path: string)        // File.write(path, Net::HTTP.get(url))
    | FetchToStdout(url: string)                    // print Net::HTTP.get(url)

  /** How the process ends. */
  datatype Status =
    | Completed
    | Aborted(message: string)   // `abort message`
    | Raised(exception: string)  // an uncaught Ruby exception

  datatype Outcome = Outcome(effects: seq<Effect>, status: Status)

  const DuplicateNotice := "You already have a template with that name"
  const DuplicateAbort := "A template with that name already exists"
  const LocalAdded := "Added to local templates"
  const RemoteAdded := "Added to remote templates"
  const DirectoriesOnly := "This option should only be used on directories"
  /** `Local_templates + nil`: a position that resolves to no entry. */
  const NilConversion := "TypeError"
  /** `nil.gsub(...)`: a position that resolves to no line. */
  const NilMethod := "NoMethodError"
  /** A position that does not fit a C `long`. */
  const LongConversion := "RangeError"

  /** `local_script_run(location)`, given `Dir.entries(location)`: the first
      entry whose name holds "_templatesmanagerscript." is run from
      `location`, and nothing runs when no entry has that marker. */
  function ScriptRun(location: string, entries: seq<string>): (es: seq<Effect>)
    ensures es == [] <==> forall k :: 0 <= k < |entries| ==> !Contains(entries[k], HookMarker)
    ensures es != [] ==> exists k ::
      && 0 <= k < |entries|
      && es == [RunScript(location, "./" + entries[k])]
      && Contains(entries[k], HookMarker)
      && forall j :: 0 <= j < k ==> !Contains(entries[j], HookMarker)
  {
    match FindHook(entries)
    case None => []
    case Some(k) => [RunScript(location, "./" + entries[k])]
  }

  /** The storage directory's entries once something named `name` has been
      copied into it: a new name joins the entries, an existing one is
      overwritten in place. */
  function WithEntry(entries: seq<string>, name: string): (r: seq<string>)
    ensures forall x :: x in r <==> x in entries || x == name
    ensures NoDuplicates(entries) ==> NoDuplicates(r)
    ensures entries <= r
  {
    if name in entries then entries else entries + [name]
  }

  /** A local add that goes ahead shows the new name at the end of the
      listing, once, and leaves every listed name where it was; a name the
      listing hides (".", "..", "?DS_Store") is copied but never listed. */
  lemma LocalAddListing(entries: seq<string>, name: string)
    requires NoDuplicates(entries)
    requires name !in LocalListing(entries)
    ensures LocalListing(WithEntry(entries, name)) ==
      LocalListing(entries) + (if Hidden(name) then [] else [name])
    ensures NoDuplicates(LocalListing(WithEntry(entries, name)))
  {
    var after := WithEntry(entries, name);
    if name in entries {
      assert after == entries;
      assert Hidden(name);
    } else {
      assert after == entries + [name];
      LocalListingAppend(entries, [name]);
      assert [name][1..] == [];
      assert LocalListing([name]) == (if Hidden(name) then [] else [name]);
    }
    LocalListingNoDuplicates(after);
  }

  /** Deleting the entry at position `i` of the listing takes exactly that
      position out of the listing, keeping the others in order. */
  lemma LocalDeleteListing(entries: seq<string>, i: nat)
    requires NoDuplicates(entries)
    requires i < |LocalListing(entries)|
    ensures var listing := LocalListing(entries);
      && LocalListing(Remove(entries, listing[i])) == listing[..i] + listing[i + 1..]
      && listing[i] !in LocalListing(Remove(entries, listing[i]))
  {
    var listing := LocalListing(entries);
    LocalListingRemove(entries, listing[i]);
    LocalListingNoDuplicates(entries);
    RemoveUniqueAt(listing, i);
  }

  /** A URL with no newline is found among the lines only as an unfinished
      last line: every other line still carries its newline, so the
      duplicate check of `remote_add` cannot match it. */
  lemma RemoteDuplicateCheck(text: string, url: string)
    requires '\n' !in url
    ensures var lines := ReadLines(text);
      url in lines <==> lines != [] && lines[|lines| - 1] == url && !Terminated(text)
  {
    var lines := ReadLines(text);
    ReadLinesShape(text);
    forall k | 0 <= k < |lines| - 1 ensures lines[k] != url {
      assert IsLine(lines[k]);
      assert lines[k][|lines[k]| - 1] in lines[k];
    }
    if lines != [] && lines[|lines| - 1] == url {
      var last := lines[|lines| - 1];
      if last != [] {
        assert last[|last| - 1] in url;
      }
    }
  }

  /** On a file the commands wrote themselves (every line complete), adding
      a URL without newline appends it as one new complete line and leaves
      the file complete. */
  lemma RemoteAddAppendsLine(text: string, url: string)
    requires Terminated(text) && '\n' !in url
    ensures ReadLines(text + PutsText(url)) == ReadLines(text) + [url + "\n"]
    ensures Terminated(text + PutsText(url))
  {
    PutsTextIsLine(url);
    ReadLinesAppend(text, PutsText(url));
    ReadLinesOfLine(url + "\n");
  }

  /** Adding the same URL twice is never refused on such a file: it ends
      up on two lines. */
  lemma RemoteAddTwice(text: string, url: string)
    requires Terminated(text) && '\n' !in url
    ensures url !in ReadLines(text)
    ensures url !in ReadLines(text + PutsText(url))
    ensures ReadLines(text + PutsText(url) + PutsText(url)) == ReadLines(text) + [url + "\n"] + [url + "\n"]
  {
    var once := text + PutsText(url);
    var line := url + "\n";
    var before := ReadLines(text);
    assert url !in before by {
      RemoteDuplicateCheck(text, url);
    }
    assert ReadLines(once) == before + [line] && Terminated(once) by {
      RemoteAddAppendsLine(text, url);
    }
    assert url !in ReadLines(once) by {
      RemoteDuplicateCheck(once, url);
    }
    assert ReadLines(once + PutsText(url)) == ReadLines(once) + [line] by {
      RemoteAddAppendsLine(once, url);
    }
  }

  /** After `remote_delete` the file reads back as the old lines without the
      deleted one, every line now complete; deleting the last remaining
      line leaves a single blank line behind. */
  lemma RemoteDeleteLines(text: string, pos: int)
    ensures var rest := DeleteAt(ReadLines(text), pos);
      && ReadLines(PutsArray(rest)) == (if rest == [] then ["\n"] else PutsLines(rest))
      && Terminated(PutsArray(rest))
      && (Terminated(text) ==> PutsLines(rest) == rest)
  {
    var lines := ReadLines(text);
    var rest := DeleteAt(lines, pos);
    var complete := Terminated(text);
    ReadLinesShape(text);
    if complete {
      CompleteLines(text);
    }
    forall k | 0 <= k < |rest|
      ensures rest[k] == [] || '\n' !in rest[k][..|rest[k]| - 1]
      ensures complete ==> PutsText(rest[k]) == rest[k]
    {
      var j := match ResolveIndex(|lines|, pos)
        case None => k
        case Some(i) => if k < i then k else k + 1;
      assert rest[k] == lines[j];
      if complete {
        assert IsLine(lines[j]);
      }
    }
    ReadLinesOfPutsArray(rest);
  }

  /** The URL `remote_put` fetches from a complete line is the line without
      its newline, and the file it writes is named after the URL's last
      path segment. */
  lemma RemotePutTarget(site: string, name: string)
    requires name != [] && '/' !in name && '\n' !in site + "/" + name
    ensures StripLineEnds(site + "/" + name + "\n") == site + "/" + name
    ensures Basename(StripLineEnds(site + "/" + name + "\n")) == name
  {
    StripLineEndsOfLine(site + "/" + name);
    BasenameOfJoin(site, name, false);
    assert site + "/" + name + (if false then "/" else "") == site + "/" + name;
  }

  /** The two registries as the commands find them on disk. */
  class Registries {
    /** `Local_templates`: the storage directory, with its trailing '/'. */
    const localRoot: string
    /** `Dir.entries(Local_templates)` in enumeration order, "." and ".."
        included. */
    var localEntries: seq<string>
    /** The text of the `Remote_templates` file. */
    var remoteText: string

    /** Entry names in one directory are distinct. */
    predicate Valid()
      reads this
    {
      NoDuplicates(localEntries)
    }

    /** The registries under the data root `dataRoot`, with the storage
        directory's entries and the remote file's text as they are. */
    constructor (dataRoot: string, entries: seq<string>, text: string)
      requires NoDuplicates(entries)
      ensures Valid()
      ensures localRoot == dataRoot + "/local/"
      ensures localEntries == entries && remoteText == text
    {
      localRoot := dataRoot + "/local/";
      localEntries := entries;
      remoteText := text;
    }

    /** `local_list`: the storage directory's entries the filter keeps. */
    function LocalList(): (listing: seq<string>)
      reads this
      ensures forall x :: x in listing <==> x in localEntries && !Hidden(x)
    {
      LocalListing(localEntries)
    }

    /** `remote_list`: the lines of the remote file, which together are its
        whole text. */
    function RemoteList(): (lines: seq<string>)
      reads this
      ensures Concat(lines) == remoteText
      ensures remoteText == [] <==> lines == []
    {
      ConcatReadLines(remoteText);
      ReadLines(remoteText)
    }

    /** `local_add(path)`: refused when the basename is already listed;
        otherwise the file or directory is copied into storage under its
        basename. */
    method LocalAdd(path: string) returns (o: Outcome)
      requires Valid()
      modifies this
      ensures Valid() && remoteText == old(remoteText)
      ensures var name := Basename(path);
        if name in old(LocalList()) then
          && o == Outcome([Notify(DuplicateNotice)], Aborted(DuplicateAbort))
          && localEntries == old(localEntries)
        else
          && o == Outcome([CopyTree(path, localRoot), Notify(LocalAdded)], Completed)
          && localEntries == WithEntry(old(localEntries), name)
    {
      var name := Basename(path);
      if name in LocalListing(localEntries) {
        o := Outcome([Notify(DuplicateNotice)], Aborted(DuplicateAbort));
      } else {
        localEntries := WithEntry(localEntries, name);
        o := Outcome([CopyTree(path, localRoot), Notify(LocalAdded)], Completed);
      }
    }

    /** `remote_add(url)`: refused when `url` equals one of the lines as
        read, newline included; otherwise `url` is appended with `puts`. */
    method RemoteAdd(url: string) returns (o: Outcome)
      modifies this
      ensures localEntries == old(localEntries)
      ensures if url in old(RemoteList()) then
          && o == Outcome([Notify(DuplicateNotice)], Aborted(DuplicateAbort))
          && remoteText == old(remoteText)
        else
          && o == Outcome([Notify(RemoteAdded)], Completed)
          && remoteText == old(remoteText) + PutsText(url)
    {
      if url in ReadLines(remoteText) {
        o := Outcome([Notify(DuplicateNotice)], Aborted(DuplicateAbort));
      } else {
        remoteText := remoteText + PutsText(url);
        o := Outcome([Notify(RemoteAdded)], Completed);
      }
    }

    /** `local_delete(pos)`: the entry at `pos` of a fresh listing goes to
        the trash; a position that does not fit a `long` or resolves to
        nothing raises before the trash tool is called. */
    method LocalDelete(pos: int) returns (o: Outcome)
      requires Valid()
      modifies this
      ensures Valid() && remoteText == old(remoteText)
      ensures var listing := old(LocalList());
        if !FitsLong(pos) then
          o == Outcome([], Raised(LongConversion)) && localEntries == old(localEntries)
        else match ResolveIndex(|listing|, pos)
        case None =>
          o == Outcome([], Raised(NilConversion)) && localEntries == old(localEntries)
        case Some(i) =>
          && o == Outcome([MoveToTrash(localRoot + listing[i])], Completed)
          && localEntries == Remove(old(localEntries), listing[i])
    {
      var listing := LocalListing(localEntries);
      if !FitsLong(pos) {
        o := Outcome([], Raised(LongConversion));
      } else {
        match ResolveIndex(|listing|, pos)
        case None =>
          o := Outcome([], Raised(NilConversion));
        case Some(i) =>
          RemoveKeepsNoDuplicates(localEntries, listing[i]);
          localEntries := Remove(localEntries, listing[i]);
          o := Outcome([MoveToTrash(localRoot + listing[i])], Completed);
      }
    }

    /** `remote_delete(pos)`: the lines are read, the one at `pos` is
        deleted (none when `pos` resolves to nothing) and the file is
        rewritten with `puts` of the rest. A position that does not fit a
        `long` raises in `delete_at`, before the file is reopened, so the
        file is left as it was. */
    method RemoteDelete(pos: int) returns (o: Outcome)
      modifies this
      ensures localEntries == old(localEntries)
      ensures !FitsLong(pos) ==>
        o == Outcome([], Raised(LongConversion)) && remoteText == old(remoteText)
      ensures FitsLong(pos) ==>
        && o == Outcome([], Completed)
        && remoteText == PutsArray(DeleteAt(old(RemoteList()), pos))
        && Terminated(remoteText)
    {
      var lines := ReadLines(remoteText);
      if !FitsLong(pos) {
        o := Outcome([], Raised(LongConversion));
      } else {
        lines := DeleteAt(lines, pos);
        RemoteDeleteLines(remoteText, pos);
        remoteText := PutsArray(lines);
        o := Outcome([], Completed);
      }
    }

    /** `local_put(pos)`: the entry is copied into the target directory
        `finderDir`; when the copy is a directory (`destIsDirectory`), its
        hook script, found among `destEntries`, is run inside it. */
    method LocalPut(pos: int, finderDir: string, destIsDirectory: bool, destEntries: seq<string>)
      returns (o: Outcome)
      ensures var listing := LocalList();
        if !FitsLong(pos) then o == Outcome([], Raised(LongConversion))
        else match ResolveIndex(|listing|, pos)
        case None => o == Outcome([], Raised(NilConversion))
        case Some(i) =>
          && o.status == Completed
          && o.effects == [CopyTree(localRoot + listing[i], finderDir)] +
            (if destIsDirectory then ScriptRun(finderDir + listing[i], destEntries) else [])
      ensures !destIsDirectory ==> forall e :: e in o.effects ==> !e.RunScript?
    {
      var listing := LocalListing(localEntries);
      if !FitsLong(pos) {
        o := Outcome([], Raised(LongConversion));
        return;
      }
      match ResolveIndex(|listing|, pos)
      case None =>
        o := Outcome([], Raised(NilConversion));
      case Some(i) =>
        var title := listing[i];
        var effects := [CopyTree(localRoot + title, finderDir)];
        if destIsDirectory {
          effects := effects + ScriptRun(finderDir + title, destEntries);
        }
        o := Outcome(effects, Completed);
    }

    /** `local_put_files_only(pos)`: refused for a regular file
        (`entryIsFile`) before anything is copied; otherwise the entry's
        children, not the entry itself, are copied into `finderDir` and the
        hook script is looked for among `finderEntries`, the target
        directory's entries after the copy. */
    method LocalPutFilesOnly(pos: int, finderDir: string, entryIsFile: bool, finderEntries: seq<string>)
      returns (o: Outcome)
      ensures var listing := LocalList();
        if !FitsLong(pos) then o == Outcome([], Raised(LongConversion))
        else match ResolveIndex(|listing|, pos)
        case None => o == Outcome([], Raised(NilConversion))
        case Some(i) =>
          if entryIsFile then
            o == Outcome([Notify(DirectoriesOnly)], Aborted(DirectoriesOnly))
          else
            && o.status == Completed
            && o.effects == [CopyChildren(localRoot + listing[i], finderDir)] + ScriptRun(finderDir, finderEntries)
      ensures forall e :: e in o.effects ==> !e.CopyTree?
      ensures entryIsFile ==> forall e :: e in o.effects ==> !e.CopyChildren? && !e.RunScript?
    {
      var listing := LocalListing(localEntries);
      if !FitsLong(pos) {
        o := Outcome([], Raised(LongConversion));
        return;
      }
      match ResolveIndex(|listing|, pos)
      case None =>
        o := Outcome([], Raised(NilConversion));
      case Some(i) =>
        var location := localRoot + listing[i];
        if entryIsFile {
          o := Outcome([Notify(DirectoriesOnly)], Aborted(DirectoriesOnly));
        } else {
          o := Outcome([CopyChildren(location, finderDir)] + ScriptRun(finderDir, finderEntries), Completed);
        }
    }

    /** `remote_put(pos)`: the line at `pos`, without its line-ending
        newline, is fetched into `finderDir` under the URL's basename. */
    method RemotePut(pos: int, finderDir: string) returns (o: Outcome)
      ensures var lines := RemoteList();
        if !FitsLong(pos) then o == Outcome([], Raised(LongConversion))
        else match ResolveIndex(|lines|, pos)
        case None => o == Outcome([], Raised(NilMethod))
        case Some(i) =>
          var url := StripLineEnds(lines[i]);
          o == Outcome([FetchToFile(url, finderDir + Basename(url))], Completed)
    {
      var lines := ReadLines(remoteText);
      if !FitsLong(pos) {
        o := Outcome([], Raised(LongConversion));
        return;
      }
      match ResolveIndex(|lines|, pos)
      case None =>
        o := Outcome([], Raised(NilMethod));
      case Some(i) =>
        var url := StripLineEnds(lines[i]);
        var fileName := Basename(url);
        o := Outcome([FetchToFile(url, finderDir + fileName)], Completed);
    }

    /** `remote_print(pos)`: the line at `pos`, without its line-ending
        newline, is fetched to standard output. */
    method RemotePrint(pos: int) returns (o: Outcome)
      ensures var lines := RemoteList();
        if !FitsLong(pos) then o == Outcome([], Raised(LongConversion))
        else match ResolveIndex(|lines|, pos)
        case None => o == Outcome([], Raised(NilMethod))
        case Some(i) => o == Outcome([FetchToStdout(StripLineEnds(lines[i]))], Completed)
    {
      var lines := ReadLines(remoteText);
      if !FitsLong(pos) {
        o := Outcome([], Raised(LongConversion));
        return;
      }
      match ResolveIndex(|lines|, pos)
      case None =>
        o := Outcome([], Raised(NilMethod));
      case Some(i) =>
        o := Outcome([FetchToStdout(StripLineEnds(lines[i]))], Completed);
    }
  }

  /** A file of two complete lines, such as "http://a/x.zip\n" and
      "http://b/y.zip\n": `remote_delete(0)` leaves the second line alone,
      and `remote_delete(-1)` the first. */
  lemma RemoteDeleteOneOfTwo(first: string, second: string)
    requires IsLine(first) && IsLine(second)
    ensures ReadLines(PutsArray(DeleteAt(ReadLines(first + second), 0))) == [second]
    ensures ReadLines(PutsArray(DeleteAt(ReadLines(first + second), -1))) == [first]
  {
    var lines := [first, second];
    assert ReadLines(first + second) == lines by {
      ReadLinesOfLine(first);
      ReadLinesOfLine(second);
      ReadLinesAppend(first, second);
    }
    assert DeleteAt(lines, 0) == [second];
    assert DeleteAt(lines, -1) == [first];
    RewriteOneLine(first);
    RewriteOneLine(second);
  }

  /** `puts` of a one-line array writes that complete line back. */
  lemma RewriteOneLine(line: string)
    requires IsLine(line)
    ensures ReadLines(PutsArray([line])) == [line]
  {
    assert PutsLines([line]) == [line];
    assert Concat([line]) == line + [];
    assert PutsArray([line]) == line;
    ReadLinesOfLine(line);
  }
}
