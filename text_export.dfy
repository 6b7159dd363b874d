/**
 * The `StringBuilder` pattern every export uses: `AppendLine(header)`, then one
 * `AppendLine(line(item))` per item in list order.
 */
module TextExport {
  import opened Linq

  method WriteLines<T>(header: string, items: seq<T>, line: T -> string) returns (lines: seq<string>)
    ensures lines == [header] + Select(items, line)
  {
    lines := [header];
    for i := 0 to |items|
      invariant lines == [header] + Select(items[..i], line)
    {
      assert items[..i + 1][..i] == items[..i];
      lines := lines + [line(items[i])];
    }
    assert items[..|items|] == items;
  }
}
