/**
 * The PLS playlist writer of `music.js`: the ignored-file filter of its
 * driver and `generatePLS`, which pushes one header line, two lines per file
 * and two trailer lines into an array and joins them with line breaks.
 *
 * The address of each file comes from `new URL(...)`, whose parsing and
 * percent-encoding belong to the URL library; it enters the model as the
 * function `href` from a file name to the text of its address.
 */
module Music {
  import Text

  /** `IGNORED_FILES`. */
  const IgnoredFiles: seq<string> := ["desktop.ini", "Instrumental"]

  /** `files.filter((file) => !IGNORED_FILES.includes(file))`. */
  function FilterIgnored(files: seq<string>): (kept: seq<string>)
    ensures forall f :: f in kept <==> f in files && f !in IgnoredFiles
    ensures |kept| <= |files|
  {
    if files == [] then []
    else (if files[0] in IgnoredFiles then [] else [files[0]]) + FilterIgnored(files[1..])
  }

  /** The filter keeps order: filtering two lists one after the other is filtering their concatenation. */
  lemma {:induction false} FilterIgnoredAppend(a: seq<string>, b: seq<string>)
    ensures FilterIgnored(a + b) == FilterIgnored(a) + FilterIgnored(b)
  {
    if a == [] {
      assert a + b == b;
    } else {
      assert (a + b)[0] == a[0];
      assert (a + b)[1..] == a[1..] + b;
      FilterIgnoredAppend(a[1..], b);
    }
  }

  /** `File<n>=<address>`. */
  function FileLine(n: nat, address: string): string {
    "File" + Text.Decimal(n) + "=" + address
  }

  /** `Title<n>=<file>`. */
  function TitleLine(n: nat, file: string): string {
    "Title" + Text.Decimal(n) + "=" + file
  }

  /** The two lines of every file, numbered from 1, in input order. */
  function Entries(files: seq<string>, href: string -> string): (lines: seq<string>)
    ensures |lines| == 2 * |files|
    ensures forall k :: 0 <= k < |files| ==>
      lines[2 * k] == FileLine(k + 1, href(files[k])) && lines[2 * k + 1] == TitleLine(k + 1, files[k])
  {
    if files == [] then []
    else
      var n := |files|;
      Entries(files[..n - 1], href) + [FileLine(n, href(files[n - 1])), TitleLine(n, files[n - 1])]
  }

  /** The lines of the playlist: header, the entries, the entry count and the version. */
  function PlsLines(files: seq<string>, href: string -> string): (lines: seq<string>)
    ensures |lines| == 2 * |files| + 3
    ensures lines[0] == "[playlist]"
    ensures lines[1..2 * |files| + 1] == Entries(files, href)
    ensures lines[2 * |files| + 1] == "NumberOfEntries=" + Text.Decimal(|files|)
    ensures lines[2 * |files| + 2] == "Version=2"
  {
    ["[playlist]"] + Entries(files, href) + ["NumberOfEntries=" + Text.Decimal(|files|), "Version=2"]
  }

  /** One more file adds its two lines at the end. */
  lemma EntriesStep(files: seq<string>, index: nat, href: string -> string)
    requires index < |files|
    ensures Entries(files[..index + 1], href)
      == Entries(files[..index], href) + [FileLine(index + 1, href(files[index])), TitleLine(index + 1, files[index])]
  {
    assert files[..index + 1][..index] == files[..index];
  }

  /** `generatePLS(files)`: collect the lines one by one, then join them with `'\n'`. */
  method GeneratePls(files: seq<string>, href: string -> string) returns (content: string)
    ensures content == Text.Join(PlsLines(files, href), '\n')
  {
    var lines := ["[playlist]"];
    for index := 0 to |files|
      invariant lines == ["[playlist]"] + Entries(files[..index], href)
    {
      var file := files[index];
      EntriesStep(files, index, href);
      lines := lines + [FileLine(index + 1, href(file))];
      lines := lines + [TitleLine(index + 1, file)];
    }
    assert files[..|files|] == files;
    ghost var body := lines;
    lines := lines + ["NumberOfEntries=" + Text.Decimal(|files|)];
    lines := lines + ["Version=2"];
    assert lines == body + ["NumberOfEntries=" + Text.Decimal(|files|), "Version=2"];
    content := Text.Join(lines, '\n');
  }

  /** A decimal rendering holds no line break. */
  lemma DecimalSingle(n: nat)
    ensures '\n' !in Text.Decimal(n)
  {
    var d := Text.Decimal(n);
    assert forall k :: 0 <= k < |d| ==> Text.IsDigit(d[k]);
  }

  /** No entry line holds a line break when no file name and no address does. */
  lemma {:induction false} EntriesSingle(files: seq<string>, href: string -> string)
    requires forall k :: 0 <= k < |files| ==> '\n' !in files[k] && '\n' !in href(files[k])
    ensures forall k :: 0 <= k < 2 * |files| ==> '\n' !in Entries(files, href)[k]
  {
    if files != [] {
      var n := |files|;
      EntriesSingle(files[..n - 1], href);
      DecimalSingle(n);
    }
  }

  /** No line of the playlist holds a line break when no file name and no address does. */
  lemma PlsLinesSingle(files: seq<string>, href: string -> string)
    requires forall k :: 0 <= k < |files| ==> '\n' !in files[k] && '\n' !in href(files[k])
    ensures forall k :: 0 <= k < 2 * |files| + 3 ==> '\n' !in PlsLines(files, href)[k]
  {
    EntriesSingle(files, href);
    DecimalSingle(|files|);
  }

  /**
   * Reading the playlist back line by line recovers exactly its lines: the
   * output has `2n + 3` lines and no trailing line break.
   */
  lemma PlsLinesRecovered(files: seq<string>, href: string -> string)
    requires forall k :: 0 <= k < |files| ==> '\n' !in files[k] && '\n' !in href(files[k])
    ensures Text.Split(Text.Join(PlsLines(files, href), '\n'), '\n') == PlsLines(files, href)
  {
    PlsLinesSingle(files, href);
    Text.SplitJoin(PlsLines(files, href), '\n');
  }
}
