/**
 * TaqWriter (src/taq_writer.cpp): two CSV outputs, quotes and trades, each
 * modelled as the sequence of lines written to it, with the open/closed state
 * of each FILE handle, the last timestamp written to each, and the warnings
 * printed to stderr. Number formatting (fprint_double, mid, spread,
 * microprice) is not modelled: a row records the values it was given.
 */
module Taq {
  import opened Types

  const QUOTE_HEADER: string := "ts_ns,bid_px,bid_sz,ask_px,ask_sz,mid,spread,microprice"
  const TRADE_HEADER: string := "ts_ns,price,qty,side"

  /** The arguments of write_quote_row; a NaN price is None. */
  datatype QuoteArgs = QuoteArgs(ts: int, bidPx: Option<real>, bidSz: real, askPx: Option<real>, askSz: real)

  datatype QuoteLine = QuoteHeader(text: string) | QuoteRow(q: QuoteArgs)
  datatype TradeLine = TradeHeader(text: string) | TradeRow(ts: int, price: real, qty: real, side: char)

  /** What the writer prints to stderr. */
  datatype Warning =
    | QuotesOpenFailed
    | TradesOpenFailed
    | NonMonotonicQuote(ts: int, last: int)
    | NonMonotonicTrade(ts: int, last: int)

  /** The writer's observable state: handles, file contents, last timestamps, stderr. */
  datatype Writer = Writer(
    quoteOpen: bool, tradeOpen: bool,
    quotes: seq<QuoteLine>, trades: seq<TradeLine>,
    lastQuoteTs: Option<int>, lastTradeTs: Option<int>,
    stderr: seq<Warning>)

  /** A default-constructed writer. */
  const Fresh: Writer := Writer(false, false, [], [], None, None, [])

  /** close: both handles closed, both last timestamps reset; file contents stay as written. */
  function CloseSpec(w: Writer): Writer {
    w.(quoteOpen := false, tradeOpen := false, lastQuoteTs := None, lastTradeTs := None)
  }

  /**
   * open, with the outcomes of the two fopen calls as parameters: close first;
   * a failed quotes fopen leaves both closed; a failed trades fopen closes the
   * freshly truncated quotes file again; otherwise each file gets its header.
   */
  function OpenSpec(w: Writer, quotesOk: bool, tradesOk: bool): (Writer, bool) {
    var c := CloseSpec(w);
    if !quotesOk then (c.(stderr := c.stderr + [QuotesOpenFailed]), false)
    else if !tradesOk then (c.(quotes := [], stderr := c.stderr + [TradesOpenFailed]), false)
    else (c.(quoteOpen := true, tradeOpen := true,
             quotes := [QuoteHeader(QUOTE_HEADER)], trades := [TradeHeader(TRADE_HEADER)]), true)
  }

  /** write_quote_row: nothing without a quotes file; otherwise warn on a decrease, record ts, append the row. */
  function WriteQuote(w: Writer, q: QuoteArgs): Writer {
    if !w.quoteOpen then w
    else
      w.(stderr := if w.lastQuoteTs.Some? && q.ts < w.lastQuoteTs.value
                   then w.stderr + [NonMonotonicQuote(q.ts, w.lastQuoteTs.value)] else w.stderr,
         lastQuoteTs := Some(q.ts),
         quotes := w.quotes + [QuoteRow(q)])
  }

  /** `side ? side : ' '`. */
  function SideChar(side: char): (c: char)
    ensures c != 0 as char
    ensures side != 0 as char ==> c == side
  {
    if side != 0 as char then side else ' '
  }

  /** write_trade_row: as write_quote_row, on the trades file. */
  function WriteTrade(w: Writer, ts: int, price: real, qty: real, side: char): Writer {
    if !w.tradeOpen then w
    else
      w.(stderr := if w.lastTradeTs.Some? && ts < w.lastTradeTs.value
                   then w.stderr + [NonMonotonicTrade(ts, w.lastTradeTs.value)] else w.stderr,
         lastTradeTs := Some(ts),
         trades := w.trades + [TradeRow(ts, price, qty, SideChar(side))])
  }

  /**
   * An open file starts with exactly one header followed only by rows, and the
   * last timestamp, once set, is that of the file's last row; a closed file has
   * no last timestamp.
   */
  ghost predicate Valid(w: Writer) {
    && (w.quoteOpen ==> |w.quotes| >= 1 && w.quotes[0] == QuoteHeader(QUOTE_HEADER) &&
                        forall i :: 1 <= i < |w.quotes| ==> w.quotes[i].QuoteRow?)
    && (w.tradeOpen ==> |w.trades| >= 1 && w.trades[0] == TradeHeader(TRADE_HEADER) &&
                        forall i :: 1 <= i < |w.trades| ==> w.trades[i].TradeRow?)
    && (w.lastQuoteTs.Some? ==> w.quoteOpen && w.quotes[|w.quotes| - 1].QuoteRow? &&
                                w.quotes[|w.quotes| - 1].q.ts == w.lastQuoteTs.value)
    && (w.lastTradeTs.Some? ==> w.tradeOpen && w.trades[|w.trades| - 1].TradeRow? &&
                                w.trades[|w.trades| - 1].ts == w.lastTradeTs.value)
  }

  /** Every operation keeps the writer Valid. */
  lemma OperationsKeepValid(w: Writer, quotesOk: bool, tradesOk: bool, q: QuoteArgs,
                            ts: int, price: real, qty: real, side: char)
    requires Valid(w)
    ensures Valid(CloseSpec(w)) && Valid(OpenSpec(w, quotesOk, tradesOk).0)
    ensures Valid(WriteQuote(w, q)) && Valid(WriteTrade(w, ts, price, qty, side))
  {
  }

  /**
   * open succeeds exactly when both fopen calls do; then each file holds exactly
   * its header and no last timestamp is set; on failure both handles are closed.
   */
  lemma OpenOutcome(w: Writer, quotesOk: bool, tradesOk: bool)
    ensures var (w', ok) := OpenSpec(w, quotesOk, tradesOk);
      && (ok <==> quotesOk && tradesOk)
      && (ok ==> w'.quoteOpen && w'.tradeOpen &&
                 w'.quotes == [QuoteHeader(QUOTE_HEADER)] && w'.trades == [TradeHeader(TRADE_HEADER)])
      && (!ok ==> !w'.quoteOpen && !w'.tradeOpen)
      && w'.lastQuoteTs == None && w'.lastTradeTs == None
  {
  }

  /**
   * A write to an open file always lands and always records its timestamp; a
   * smaller timestamp than the last one only adds a warning. A write to a
   * closed file changes nothing.
   */
  lemma WriteQuoteOutcome(w: Writer, q: QuoteArgs)
    ensures var w' := WriteQuote(w, q);
      && (!w.quoteOpen ==> w' == w)
      && (w.quoteOpen ==>
            && w'.quotes == w.quotes + [QuoteRow(q)] && w'.lastQuoteTs == Some(q.ts)
            && (w.lastQuoteTs.Some? && q.ts < w.lastQuoteTs.value ==>
                  w'.stderr == w.stderr + [NonMonotonicQuote(q.ts, w.lastQuoteTs.value)])
            && (w.lastQuoteTs.None? || q.ts >= w.lastQuoteTs.value ==> w'.stderr == w.stderr)
            && w'.trades == w.trades && w'.lastTradeTs == w.lastTradeTs)
  {
  }

  /** The same for the trades file: the row carries ts, price, qty and the side character. */
  lemma WriteTradeOutcome(w: Writer, ts: int, price: real, qty: real, side: char)
    ensures var w' := WriteTrade(w, ts, price, qty, side);
      && (!w.tradeOpen ==> w' == w)
      && (w.tradeOpen ==>
            && w'.trades == w.trades + [TradeRow(ts, price, qty, SideChar(side))]
            && w'.lastTradeTs == Some(ts)
            && (w.lastTradeTs.Some? && ts < w.lastTradeTs.value ==>
                  w'.stderr == w.stderr + [NonMonotonicTrade(ts, w.lastTradeTs.value)])
            && (w.lastTradeTs.None? || ts >= w.lastTradeTs.value ==> w'.stderr == w.stderr)
            && w'.quotes == w.quotes && w'.lastQuoteTs == w.lastQuoteTs)
  {
  }

  /** A run of quote writes, in order. */
  function WriteQuotes(w: Writer, qs: seq<QuoteArgs>): Writer
    decreases |qs|
  {
    if qs == [] then w else WriteQuotes(WriteQuote(w, qs[0]), qs[1..])
  }

  /** The rows of a run of quote writes. */
  function QuoteRows(qs: seq<QuoteArgs>): seq<QuoteLine>
    decreases |qs|
  {
    if qs == [] then [] else [QuoteRow(qs[0])] + QuoteRows(qs[1..])
  }

  predicate NonDecreasing(qs: seq<QuoteArgs>) {
    forall i, j :: 0 <= i < j < |qs| ==> qs[i].ts <= qs[j].ts
  }

  /** Into an open quotes file every row of a run lands, in order, and the file stays open. */
  lemma {:induction false} WriteQuotesRows(w: Writer, qs: seq<QuoteArgs>)
    requires w.quoteOpen
    ensures WriteQuotes(w, qs).quoteOpen
    ensures WriteQuotes(w, qs).quotes == w.quotes + QuoteRows(qs)
    decreases |qs|
  {
    if qs == [] {
      assert w.quotes + QuoteRows(qs) == w.quotes;
    } else {
      var w1 := WriteQuote(w, qs[0]);
      var rest := QuoteRows(qs[1..]);
      WriteQuotesRows(w1, qs[1..]);
      assert QuoteRows(qs) == [QuoteRow(qs[0])] + rest;
      assert w.quotes + ([QuoteRow(qs[0])] + rest) == w1.quotes + rest;
    }
  }

  /** After a non-empty run into an open file the last timestamp is the run's final one. */
  lemma {:induction false} WriteQuotesLast(w: Writer, qs: seq<QuoteArgs>)
    requires w.quoteOpen && qs != []
    ensures WriteQuotes(w, qs).lastQuoteTs == Some(qs[|qs| - 1].ts)
    decreases |qs|
  {
    var w1 := WriteQuote(w, qs[0]);
    if |qs| > 1 {
      WriteQuotesLast(w1, qs[1..]);
    }
  }

  /**
   * A run whose timestamps never fall, also against the last one written,
   * prints no warning.
   */
  lemma {:induction false} WriteQuotesQuiet(w: Writer, qs: seq<QuoteArgs>)
    requires w.quoteOpen && NonDecreasing(qs)
    requires w.lastQuoteTs.Some? && qs != [] ==> w.lastQuoteTs.value <= qs[0].ts
    ensures WriteQuotes(w, qs).stderr == w.stderr
    decreases |qs|
  {
    if qs != [] {
      var w1 := WriteQuote(w, qs[0]);
      assert w1.stderr == w.stderr && w1.quoteOpen && w1.lastQuoteTs == Some(qs[0].ts);
      if |qs| > 1 {
        assert qs[1..][0] == qs[1];
      }
      WriteQuotesQuiet(w1, qs[1..]);
    }
  }

  /** A character that makes esc quote its input. */
  predicate Special(c: char) {
    c == ',' || c == '"' || c == '\n' || c == '\r'
  }

  predicate NeedsQuoting(s: string) {
    exists i :: 0 <= i < |s| && Special(s[i])
  }

  /** The quote doubled, any other character kept. */
  function Piece(c: char): string {
    if c == '"' then "\"\"" else [c]
  }

  /** s with every `"` doubled. */
  function DoubleQuotes(s: string): string {
    if s == [] then [] else Piece(s[0]) + DoubleQuotes(s[1..])
  }

  lemma {:induction false} DoubleQuotesSnoc(s: string, c: char)
    ensures DoubleQuotes(s + [c]) == DoubleQuotes(s) + Piece(c)
  {
    if s == [] {
      assert [c][1..] == [];
    } else {
      assert (s + [c])[1..] == s[1..] + [c];
      DoubleQuotesSnoc(s[1..], c);
    }
  }

  /** RFC 4180 section 2 rules 6 and 7: enclosed in double quotes, inner quotes doubled. */
  function Quoted(s: string): string {
    "\"" + DoubleQuotes(s) + "\""
  }

  /** esc's result: s itself unless it holds a comma, quote, CR or LF. */
  function Escaped(s: string): string {
    if NeedsQuoting(s) then Quoted(s) else s
  }

  /** Quoting adds the two enclosing quotes and one character per quote in s. */
  lemma {:induction false} QuotedLength(s: string)
    ensures |Quoted(s)| == |s| + 2 + multiset(s)['"']
  {
    DoubleQuotesLength(s);
  }

  lemma {:induction false} DoubleQuotesLength(s: string)
    ensures |DoubleQuotes(s)| == |s| + multiset(s)['"']
  {
    if s != [] {
      DoubleQuotesLength(s[1..]);
      assert s == [s[0]] + s[1..];
      assert multiset(s) == multiset{s[0]} + multiset(s[1..]);
    }
  }

  /** Reading a field's inside: `""` stands for one quote, a lone quote is malformed. */
  function Collapse(t: string): Option<string> {
    if t == [] then Some([])
    else if t[0] == '"' then
      if |t| >= 2 && t[1] == '"' then
        match Collapse(t[2..]) case Some(r) => Some("\"" + r) case None => None
      else None
    else
      match Collapse(t[1..]) case Some(r) => Some([t[0]] + r) case None => None
  }

  /** An RFC 4180 field reader: a field enclosed in quotes is collapsed, any other is taken as is. */
  function ReadField(f: string): Option<string> {
    if |f| >= 2 && f[0] == '"' && f[|f| - 1] == '"' then Collapse(f[1..|f| - 1]) else Some(f)
  }

  lemma {:induction false} CollapseDoubled(s: string)
    ensures Collapse(DoubleQuotes(s)) == Some(s)
  {
    if s != [] {
      CollapseDoubled(s[1..]);
      var d := DoubleQuotes(s);
      assert d == Piece(s[0]) + DoubleQuotes(s[1..]);
      if s[0] == '"' {
        assert d[2..] == DoubleQuotes(s[1..]);
      } else {
        assert d[1..] == DoubleQuotes(s[1..]);
      }
      assert s == [s[0]] + s[1..];
    }
  }

  /** Reading back what esc wrote gives the original string. */
  lemma EscapedRoundTrip(s: string)
    ensures ReadField(Escaped(s)) == Some(s)
  {
    if NeedsQuoting(s) {
      var f := Quoted(s);
      assert f[1..|f| - 1] == DoubleQuotes(s);
      CollapseDoubled(s);
    }
  }

  /** TaqWriter: the two FILE handles, the files' contents, the last timestamps and stderr. */
  class TaqWriter {
    var quoteOpen: bool
    var tradeOpen: bool
    var quotes: seq<QuoteLine>
    var trades: seq<TradeLine>
    var lastQuoteTs: Option<int>
    var lastTradeTs: Option<int>
    var stderr: seq<Warning>

    ghost function Abs(): Writer
      reads this
    {
      Writer(quoteOpen, tradeOpen, quotes, trades, lastQuoteTs, lastTradeTs, stderr)
    }

    constructor ()
      ensures Abs() == Fresh && Valid(Abs())
    {
      quoteOpen, tradeOpen := false, false;
      quotes, trades := [], [];
      lastQuoteTs, lastTradeTs := None, None;
      stderr := [];
    }

    /** close. */
    method Close()
      modifies this
      ensures Abs() == CloseSpec(old(Abs()))
    {
      if quoteOpen { quoteOpen := false; }
      if tradeOpen { tradeOpen := false; }
      lastQuoteTs := None;
      lastTradeTs := None;
    }

    /** open; quotesOk and tradesOk are the outcomes of the two fopen calls. */
    method Open(quotesOk: bool, tradesOk: bool) returns (ok: bool)
      modifies this
      ensures (Abs(), ok) == OpenSpec(old(Abs()), quotesOk, tradesOk)
    {
      Close();
      if !quotesOk {
        stderr := stderr + [QuotesOpenFailed];
        return false;
      }
      quoteOpen := true;
      quotes := [];
      if !tradesOk {
        stderr := stderr + [TradesOpenFailed];
        quoteOpen := false;
        return false;
      }
      tradeOpen := true;
      quotes := [QuoteHeader(QUOTE_HEADER)];
      trades := [TradeHeader(TRADE_HEADER)];
      ok := true;
    }

    /** write_quote_row. */
    method WriteQuoteRow(ts: int, bidPx: Option<real>, bidSz: real, askPx: Option<real>, askSz: real)
      modifies this
      ensures Abs() == WriteQuote(old(Abs()), QuoteArgs(ts, bidPx, bidSz, askPx, askSz))
    {
      if !quoteOpen {
        return;
      }
      if lastQuoteTs.Some? && ts < lastQuoteTs.value {
        stderr := stderr + [NonMonotonicQuote(ts, lastQuoteTs.value)];
      }
      lastQuoteTs := Some(ts);
      quotes := quotes + [QuoteRow(QuoteArgs(ts, bidPx, bidSz, askPx, askSz))];
    }

    /** write_trade_row. */
    method WriteTradeRow(ts: int, price: real, qty: real, side: char)
      modifies this
      ensures Abs() == WriteTrade(old(Abs()), ts, price, qty, side)
    {
      if !tradeOpen {
        return;
      }
      if lastTradeTs.Some? && ts < lastTradeTs.value {
        stderr := stderr + [NonMonotonicTrade(ts, lastTradeTs.value)];
      }
      lastTradeTs := Some(ts);
      var c := if side != 0 as char then side else ' ';
      trades := trades + [TradeRow(ts, price, qty, c)];
    }

    /** esc: scan for a special character; if there is one, enclose and double the quotes. */
    static method Esc(s: string) returns (r: string)
      ensures r == Escaped(s)
    {
      var needs := false;
      var i := 0;
      while i < |s|
        invariant 0 <= i <= |s|
        invariant forall k :: 0 <= k < i ==> !Special(s[k])
      {
        if Special(s[i]) {
          needs := true;
          break;
        }
        i := i + 1;
      }
      if !needs {
        return s;
      }
      var out := "\"";
      var j := 0;
      while j < |s|
        invariant 0 <= j <= |s|
        invariant out == "\"" + DoubleQuotes(s[..j])
      {
        if s[j] == '"' {
          out := out + "\"\"";
        } else {
          out := out + [s[j]];
        }
        DoubleQuotesSnoc(s[..j], s[j]);
        assert s[..j + 1] == s[..j] + [s[j]];
        j := j + 1;
      }
      assert s[..j] == s;
      out := out + "\"";
      r := out;
    }
  }
}
