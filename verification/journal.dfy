/**
 The record types of `src/lib.rs` that have no parsing code of their own: a
 journal block, a transaction entry, its lines and exchange rates. They are
 declared so that the parsed Price and Value have their place in the tree;
 no behaviour is attached to them.
 */
module Journal {
  import opened Wrappers
  import opened Calendar
  import opened Values
  import opened Prices

  /** A standalone block of a journal. */
  datatype Block =
    | EntryBlock(entry: Entry)
    | PriceBlock(price: Price)
    | CommentBlock(text: string)

  /** The flow of funds between accounts: a dated description and its lines,
      comments interleaved as written. */
  datatype Entry = Entry(date: Date, description: string, lines: seq<LineOrComment>)

  /** A line of an entry: a posting or a comment line. */
  datatype LineOrComment =
    | PostingLine(line: Line)
    | CommentLine(text: string)

  /** One posting of an entry, such as `expenses:food  42.50 CAD`. */
  datatype Line = Line(account: string, value: Value, exchange: Option<Exchange>, comment: Option<string>)

  /** An exchange rate: per unit (`@`) or for the whole amount (`@@`). */
  datatype Exchange =
    | PerUnit(rate: Value)
    | Total(cost: Value)
}
