/** The output stage of the entry point: nothing is written when both
    `non_ips` and `ips` are empty; otherwise three files, each the sorted
    collection joined with newlines. */
module Writer {
  import opened Text
  import Order
  import IPv4

  const UrlsName := "urls.txt"
  const IpsName := "ips.txt"
  const PiholeName := "urls-pihole.txt"

  /** A written file: its name and the lines it holds, in order. */
  datatype File = File(name: string, lines: seq<string>) {
    /** What `f.writelines("\n".join(lines))` leaves in the file. */
    function Contents(): string {
      Join(lines, '\n')
    }
  }

  /** `NoContent` is the logged "No content available" case. */
  datatype Output = NoContent | Written(urls: File, ips: File, pihole: File)

  /** The three files are written together or not at all. */
  method Write(nonIps: set<string>, ips: set<string>, fqdns: set<string>) returns (out: Output)
    requires forall ip | ip in ips :: IPv4.IsAddress(ip)
    ensures out.NoContent? <==> nonIps == {} && ips == {}
    ensures out.Written? ==>
      && out.urls.name == UrlsName
      && Order.Elements(out.urls.lines) == nonIps
      && Order.Increasing(out.urls.lines, Order.LexLess)
    ensures out.Written? ==>
      && out.ips.name == IpsName
      && Order.Elements(out.ips.lines) == ips
      && Order.Increasing(out.ips.lines, Order.AddressLess)
    ensures out.Written? ==>
      && out.pihole.name == PiholeName
      && Order.Elements(out.pihole.lines) == fqdns
      && Order.Increasing(out.pihole.lines, Order.LexLess)
  {
    if nonIps == {} && ips == {} {
      return NoContent;
    }
    Order.LexLessStrictTotal(nonIps);
    var urlLines := Order.Sort(nonIps, Order.LexLess);
    Order.AddressLessStrictTotal(ips);
    var ipLines := Order.Sort(ips, Order.AddressLess);
    Order.LexLessStrictTotal(fqdns);
    var fqdnLines := Order.Sort(fqdns, Order.LexLess);
    out := Written(File(UrlsName, urlLines), File(IpsName, ipLines), File(PiholeName, fqdnLines));
  }

  /** A file's lines are determined by its collection and its order:
      two increasing listings of the same set are the same listing. */
  lemma {:induction false} LinesDetermined(a: seq<string>, b: seq<string>)
    requires Order.Elements(a) == Order.Elements(b)
    requires Order.Increasing(a, Order.LexLess) && Order.Increasing(b, Order.LexLess)
    ensures a == b
  {
    Order.LexLessStrictTotal(Order.Elements(a));
    Order.IncreasingUnique(a, b, Order.LexLess);
  }

  /** Reading a non-empty file back and splitting on newlines gives its
      lines, provided no line holds a newline. */
  lemma {:induction false} ReadBack(f: File)
    requires |f.lines| > 0
    requires forall k | 0 <= k < |f.lines| :: '\n' !in f.lines[k]
    ensures Split(f.Contents(), '\n') == f.lines
  {
    SplitJoin(f.lines, '\n');
  }

  /** No newline follows the last line: the file ends with the last
      line's last character. */
  lemma {:induction false} NoTrailingNewline(f: File)
    requires |f.lines| > 0
    requires forall k | 0 <= k < |f.lines| :: |f.lines[k]| > 0 && '\n' !in f.lines[k]
    ensures var s := f.Contents(); |s| > 0 && s[|s| - 1] != '\n'
  {
    var last := f.lines[|f.lines| - 1];
    JoinLast(f.lines, '\n');
    assert last[|last| - 1] in last;
  }

  /** An empty collection gives an empty file. */
  lemma {:induction false} EmptyFile(f: File)
    ensures f.Contents() == [] <==> |f.lines| == 0 || (|f.lines| == 1 && f.lines[0] == [])
  {
    if |f.lines| > 1 {
      assert f.Contents() == f.lines[0] + ['\n'] + Join(f.lines[1..], '\n');
    }
  }
}
