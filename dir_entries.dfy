/** The two filters TemplatesManager applies to `Dir.entries`: the local
    listing, which rejects entries matching `/^(\.{1,2}$|.DS_Store$)/`, and
    the hook-script search, which takes the first entry matching
    `/_templatesmanagerscript\./`. Both regexps are matched the Ruby way:
    `^` and `$` are line anchors and `.` is any character but a newline. */
module DirEntries {
  import opened RubyArray
  import opened RubyText

  /** `$` holds at position q of s: the end of s or just before a newline. */
  predicate LineEndAt(s: string, q: nat)
  {
    q == |s| || (q < |s| && s[q] == '\n')
  }

  /** `^` holds at position p of s: the start of s or just after a newline. */
  predicate LineStartAt(s: string, p: nat)
  {
    p == 0 || (p <= |s| && s[p - 1] == '\n')
  }

  /** One alternative of `(\.{1,2}$|.DS_Store$)` matches at position p. */
  predicate AlternativeAt(s: string, p: nat)
  {
    || (p + 1 <= |s| && s[p] == '.' && LineEndAt(s, p + 1))
    || (p + 2 <= |s| && s[p] == '.' && s[p + 1] == '.' && LineEndAt(s, p + 2))
    || (p + 9 <= |s| && s[p] != '\n' && s[p + 1..p + 9] == "DS_Store" && LineEndAt(s, p + 9))
  }

  /** The entry is one `local_list` rejects: some line of it is `.`, `..`
      or any one character followed by `DS_Store`. */
  predicate Hidden(name: string): (r: bool)
    ensures r ==> name != []
    ensures name == "." || name == ".." ==> r
    ensures |name| == 9 && name[0] != '\n' && name[1..] == "DS_Store" ==> r
  {
    assert name == "." || name == ".." || (|name| == 9 && name[0] != '\n' && name[1..] == "DS_Store")
      ==> LineStartAt(name, 0) && AlternativeAt(name, 0);
    exists p: nat :: p <= |name| && LineStartAt(name, p) && AlternativeAt(name, p)
  }

  /** For a name on one line (every real case) the rejected names are
      exactly ".", ".." and the nine-character names ending in "DS_Store". */
  lemma HiddenSingleLine(name: string)
    requires '\n' !in name
    ensures Hidden(name) <==> name == "." || name == ".." || (|name| == 9 && name[1..] == "DS_Store")
  {
    if Hidden(name) {
      var p: nat :| p <= |name| && LineStartAt(name, p) && AlternativeAt(name, p);
      forall q: nat | 0 < q <= |name| ensures !LineStartAt(name, q) {
        assert name[q - 1] in name;
      }
      assert p == 0;
      forall q: nat | q < |name| ensures !LineEndAt(name, q) {
        assert name[q] in name;
      }
      assert name[..1] == [name[0]];
    } else if |name| == 9 {
      assert name[0] in name;
    }
  }

  /** A name is rejected as soon as any of its lines is: "notes\n.." is
      filtered out just like "..". */
  lemma HiddenLaterLine(first: string, rest: string)
    requires Hidden(rest)
    ensures Hidden(first + "\n" + rest)
  {
    var p: nat :| p <= |rest| && LineStartAt(rest, p) && AlternativeAt(rest, p);
    var s := first + "\n" + rest;
    var d := |first| + 1;
    assert s[d - 1] == '\n';
    assert s[d..] == rest;
    AlternativeShift(s, rest, d, p);
    assert LineStartAt(s, d + p);
  }

  /** A match inside a suffix is a match inside the whole string. */
  lemma AlternativeShift(s: string, rest: string, d: nat, p: nat)
    requires d <= |s| && s[d..] == rest && p <= |rest|
    requires AlternativeAt(rest, p)
    ensures AlternativeAt(s, d + p)
  {
    assert |s| == d + |rest|;
    assert forall j: nat :: j <= |rest| && LineEndAt(rest, j) ==> LineEndAt(s, d + j) by {
      forall j: nat | j <= |rest| && LineEndAt(rest, j) ensures LineEndAt(s, d + j) {
        if j < |rest| {
          assert s[d + j] == rest[j];
        }
      }
    }
    assert s[d + p] == rest[p];
    if p + 2 <= |rest| {
      assert s[d + p + 1] == rest[p + 1];
    }
    if p + 9 <= |rest| {
      assert s[d + p + 1..d + p + 9] == rest[p + 1..p + 9];
    }
  }

  /** `local_list`: the storage directory's entries in enumeration order
      with the rejected ones left out. */
  function LocalListing(entries: seq<string>): (listing: seq<string>)
    ensures |listing| <= |entries|
    ensures forall x :: x in listing <==> x in entries && !Hidden(x)
  {
    if entries == [] then []
    else (if Hidden(entries[0]) then [] else [entries[0]]) + LocalListing(entries[1..])
  }

  /** The listing of consecutive stretches of entries is the listing of
      each, one after the other: kept entries stay in enumeration order. */
  lemma {:induction false} LocalListingAppend(a: seq<string>, b: seq<string>)
    ensures LocalListing(a + b) == LocalListing(a) + LocalListing(b)
  {
    if a == [] {
      assert a + b == b;
    } else {
      assert (a + b)[1..] == a[1..] + b;
      LocalListingAppend(a[1..], b);
    }
  }

  /** A directory's entries are distinct, and so are the listed ones. */
  lemma {:induction false} LocalListingNoDuplicates(entries: seq<string>)
    requires NoDuplicates(entries)
    ensures NoDuplicates(LocalListing(entries))
  {
    if entries != [] {
      LocalListingNoDuplicates(entries[1..]);
      assert entries[0] !in entries[1..] by {
        forall k | 0 <= k < |entries[1..]| ensures entries[1..][k] != entries[0] {
          assert entries[1..][k] == entries[k + 1];
        }
      }
    }
  }

  /** Deleting an entry from the directory deletes it from the listing and
      changes nothing else there. */
  lemma {:induction false} LocalListingRemove(entries: seq<string>, x: string)
    ensures LocalListing(Remove(entries, x)) == Remove(LocalListing(entries), x)
  {
    if entries != [] {
      LocalListingRemove(entries[1..], x);
      var e := entries[0];
      var head := if e == x then [] else [e];
      LocalListingAppend(head, Remove(entries[1..], x));
      var shown := if Hidden(e) then [] else [e];
      assert LocalListing(entries) == shown + LocalListing(entries[1..]);
      if shown != [] {
        assert (shown + LocalListing(entries[1..]))[1..] == LocalListing(entries[1..]);
      } else {
        assert shown + LocalListing(entries[1..]) == LocalListing(entries[1..]);
      }
    }
  }

  /** The fixed part of a hook script's name. */
  const HookMarker := "_templatesmanagerscript."

  /** The hook-script search of `local_script_run`: the position of the
      first entry whose name contains the marker anywhere, or None when no
      entry does. */
  function FindHook(entries: seq<string>): (r: Option<nat>)
    ensures r.None? <==> forall k :: 0 <= k < |entries| ==> !Contains(entries[k], HookMarker)
    ensures r.Some? ==>
      && r.value < |entries|
      && Contains(entries[r.value], HookMarker)
      && forall k :: 0 <= k < r.value ==> !Contains(entries[k], HookMarker)
  {
    if entries == [] then None
    else if Contains(entries[0], HookMarker) then Some(0)
    else match FindHook(entries[1..])
      case None => None
      case Some(j) => Some(j + 1)
  }
}
