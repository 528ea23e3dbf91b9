/** The listing documents `local_info` and `remote_info` print for the
    launcher: one output line per `puts`, an `<items>` element holding either
    a single unselectable placeholder item (empty registry) or one item per
    entry whose uuid and arg are both the entry's position. Nothing is
    escaped: titles and subtitles are spliced into CDATA sections as they are. */
module Render {
  import opened RubyArray
  import opened RubyText

  const Header := "<?xml version='1.0'?><items>"
  const Footer := "</items>"
  const IconLine := "<icon>icon.png</icon>"
  const ItemClose := "</item>"
  const PlaceholderOpen := "<item uuid='none' arg='none' valid='no'>"

  /** The opening tag of the item for position `pos`: uuid and arg are the
      same decimal position and the item can be chosen. */
  function ItemOpen(pos: nat): string
  {
    "<item uuid='" + Decimal(pos) + "' arg='" + Decimal(pos) + "' valid='yes'>"
  }

  function TitleLine(title: string): string
  {
    "<title><![CDATA[" + title + "]]></title>"
  }

  function SubtitleLine(subtitle: string): string
  {
    "<subtitle><![CDATA[" + subtitle + "]]></subtitle>"
  }

  /** The item `local_info` prints when the storage directory lists nothing. */
  const LocalPlaceholder: seq<string> := [
    PlaceholderOpen,
    "<title>List templates (tml)</title>",
    "<subtitle>You need to add some local templates, first</subtitle>",
    IconLine,
    ItemClose
  ]

  /** The item `remote_info` prints when the backing file has no lines. */
  const RemotePlaceholder: seq<string> := [
    PlaceholderOpen,
    "<title>List templates (rtml)</title>",
    "<subtitle>You need to add some remote templates, first</subtitle>",
    IconLine,
    ItemClose
  ]

  /** The item for a local template: its name as title, no subtitle. */
  function LocalItem(pos: nat, name: string): seq<string>
  {
    [ItemOpen(pos), TitleLine(name), IconLine, ItemClose]
  }

  /** The item for a remote template: the basename of the stored line as
      title and the whole line, newline included, as subtitle. */
  function RemoteItem(pos: nat, line: string): seq<string>
  {
    [ItemOpen(pos), TitleLine(Basename(line)), SubtitleLine(line), IconLine, ItemClose]
  }

  /** `local_info` for the listing `local_list` gives. */
  method LocalInfo(listing: seq<string>) returns (out: seq<string>)
    ensures |out| >= 2 && out[0] == Header && out[|out| - 1] == Footer
    ensures listing == [] ==> out[1..|out| - 1] == LocalPlaceholder
    ensures listing != [] ==> |out| == 2 + 4 * |listing|
    ensures forall i :: 0 <= i < |listing| ==> out[1 + 4 * i..5 + 4 * i] == LocalItem(i, listing[i])
  {
    out := [Header];
    if listing == [] {
      out := out + LocalPlaceholder;
    } else {
      var i := 0;
      while i < |listing|
        invariant 0 <= i <= |listing|
        invariant |out| == 1 + 4 * i && out[0] == Header
        invariant forall k :: 0 <= k < i ==> out[1 + 4 * k..5 + 4 * k] == LocalItem(k, listing[k])
      {
        LocalStep(out, listing, i);
        out := out + LocalItem(i, listing[i]);
        i := i + 1;
      }
    }
    forall k | 0 <= k < |listing| ensures (out + [Footer])[1 + 4 * k..5 + 4 * k] == out[1 + 4 * k..5 + 4 * k] {
      assert (out + [Footer])[1 + 4 * k..5 + 4 * k] == out[1 + 4 * k..5 + 4 * k];
    }
    out := out + [Footer];
  }

  /** `remote_info` for the lines `remote_list` gives. */
  method RemoteInfo(lines: seq<string>) returns (out: seq<string>)
    ensures |out| >= 2 && out[0] == Header && out[|out| - 1] == Footer
    ensures lines == [] ==> out[1..|out| - 1] == RemotePlaceholder
    ensures lines != [] ==> |out| == 2 + 5 * |lines|
    ensures forall i :: 0 <= i < |lines| ==> out[1 + 5 * i..6 + 5 * i] == RemoteItem(i, lines[i])
  {
    out := [Header];
    if lines == [] {
      out := out + RemotePlaceholder;
    } else {
      var items := seq(|lines|, k requires 0 <= k < |lines| => RemoteItem(k, lines[k]));
      var i := 0;
      while i < |lines|
        invariant 0 <= i <= |lines|
        invariant |out| == 1 + 5 * i && out[0] == Header
        invariant forall k :: 0 <= k < i ==> out[1 + 5 * k..6 + 5 * k] == items[k]
      {
        RemoteStep(out, items, i);
        out := out + items[i];
        i := i + 1;
      }
      forall k | 0 <= k < |lines| ensures out[1 + 5 * k..6 + 5 * k] == RemoteItem(k, lines[k]) {
        assert items[k] == RemoteItem(k, lines[k]);
      }
    }
    forall k | 0 <= k < |lines| ensures (out + [Footer])[1 + 5 * k..6 + 5 * k] == out[1 + 5 * k..6 + 5 * k] {
      assert (out + [Footer])[1 + 5 * k..6 + 5 * k] == out[1 + 5 * k..6 + 5 * k];
    }
    out := out + [Footer];
  }

  /** Appending the item for position i keeps the items already printed
      and puts the new one right after them. */
  lemma LocalStep(out: seq<string>, listing: seq<string>, i: nat)
    requires i < |listing| && |out| == 1 + 4 * i
    requires forall k :: 0 <= k < i ==> out[1 + 4 * k..5 + 4 * k] == LocalItem(k, listing[k])
    ensures forall k :: 0 <= k <= i ==> (out + LocalItem(i, listing[i]))[1 + 4 * k..5 + 4 * k] == LocalItem(k, listing[k])
  {
    var item := LocalItem(i, listing[i]);
    forall k | 0 <= k <= i ensures (out + item)[1 + 4 * k..5 + 4 * k] == LocalItem(k, listing[k]) {
      if k < i {
        assert (out + item)[1 + 4 * k..5 + 4 * k] == out[1 + 4 * k..5 + 4 * k];
      } else {
        assert (out + item)[|out|..] == item;
      }
    }
  }

  /** Appending the five lines of item i after items 0 .. i-1 keeps those
      and puts item i right after them. */
  lemma RemoteStep(out: seq<string>, items: seq<seq<string>>, i: nat)
    requires i < |items| && |items[i]| == 5 && |out| == 1 + 5 * i
    requires forall k :: 0 <= k < i ==> out[1 + 5 * k..6 + 5 * k] == items[k]
    ensures forall k :: 0 <= k <= i ==> (out + items[i])[1 + 5 * k..6 + 5 * k] == items[k]
  {
    var item := items[i];
    forall k | 0 <= k <= i ensures (out + item)[1 + 5 * k..6 + 5 * k] == items[k] {
      if k < i {
        assert (out + item)[1 + 5 * k..6 + 5 * k] == out[1 + 5 * k..6 + 5 * k];
      } else {
        assert (out + item)[|out|..] == item;
      }
    }
  }

  /** Choosing the item printed for position `pos` of a listing of `n`
      entries hands back an arg that reads as `pos` and addresses that same
      entry when the next command resolves it against the same listing. */
  lemma ItemArgAddressesEntry(n: nat, pos: nat)
    requires pos < n
    ensures ParseDecimal(Decimal(pos)) == pos
    ensures ResolveIndex(n, ParseDecimal(Decimal(pos))) == Some(pos)
  {
    DecimalRoundTrip(pos);
  }

  /** The scenario of one local template named "foo": a single selectable
      item at position 0 titled "foo". */
  method LocalInfoOneTemplate()
  {
    var listing := ["foo"];
    var out := LocalInfo(listing);
    assert out[1 + 4 * 0..5 + 4 * 0] == LocalItem(0, listing[0]);
    assert DigitChar(0) == '0';
    assert Decimal(0) == "0";
    assert |out| == 6 && out[1..5] == LocalItem(0, "foo");
    assert out == [out[0]] + out[1..5] + [out[5]];
    assert ItemOpen(0) == "<item uuid='0' arg='0' valid='yes'>";
    assert TitleLine("foo") == "<title><![CDATA[foo]]></title>";
    assert out == [Header, "<item uuid='0' arg='0' valid='yes'>", "<title><![CDATA[foo]]></title>", IconLine, ItemClose, Footer];
  }
}
