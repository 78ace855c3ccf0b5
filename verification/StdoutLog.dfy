/** Bounding what reaches stdout: truncation of log text, the filter over records, and the embedded-dictionary scan. */
module StdoutLog {
  import opened Text

  const NOTE: string :=
    "Truncation is a stdout logging safeguard. "
    + "Full, untruncated data is logged to logging callbacks (OTEL, Datadog, etc.) and at DEBUG level. "
    + "To increase the truncation limit, set `MAX_STRING_LENGTH_STDOUT_LOG` in your env."

  const INFO: int := 20

  function MarkerBefore(): string { "... (litellm_truncated skipped " }

  function MarkerAfter(): string { " chars. " + NOTE + ") ..." }

  function Marker(skipped: nat): string { MarkerBefore() + Decimal(skipped) + MarkerAfter() }

  /** Cutting the middle out of a text that is too long, with a marker that names how much. */
  function Truncate(marker: nat -> string, text: string, limit: nat): string
    requires 0 < limit < |text|
  {
    var kept := limit - |marker(|text|)|;
    if kept <= 0 then text[..limit]
    else text[..kept / 2] + marker(|text| - kept) + text[|text| - (kept - kept / 2)..]
  }

  /** A marker for fewer characters is never longer. */
  ghost predicate Monotone(marker: nat -> string) { forall a: nat, b: nat :: a <= b ==> |marker(a)| <= |marker(b)| }

  lemma MarkerMonotone()
    ensures Monotone(Marker)
  {
    forall a: nat, b: nat | a <= b ensures |Marker(a)| <= |Marker(b)| {
      DecimalLengthMonotone(a, b);
      MarkerLength(a);
      MarkerLength(b);
    }
  }

  lemma MarkerLength(n: nat)
    ensures |Marker(n)| == |MarkerBefore()| + |Decimal(n)| + |MarkerAfter()|
  {
  }

  /** A head and a tail of about equal length around a marker for exactly what lies between them. */
  ghost predicate Abridged(marker: nat -> string, text: string, out: string, head: nat, tail: nat)
  {
    && head + tail <= |text| && head <= tail <= head + 1 && 0 < tail
    && out == text[..head] + marker(|text| - head - tail) + text[|text| - tail..]
  }

  /**
   * Text longer than the limit comes out within it; when a marker is emitted, the head and the
   * tail that are kept do not overlap, differ by at most one character in length, and the
   * marker's number is exactly what was dropped between them.
   */
  lemma TruncateExact(marker: nat -> string, text: string, limit: nat)
    requires Monotone(marker) && 0 < limit < |text|
    ensures 0 < |Truncate(marker, text, limit)| <= limit
    ensures limit <= |marker(|text|)| ==> Truncate(marker, text, limit) == text[..limit]
    ensures limit > |marker(|text|)| ==>
              exists head: nat, tail: nat ::
                Abridged(marker, text, Truncate(marker, text, limit), head, tail) && head + tail == limit - |marker(|text|)|
  {
    var kept := limit - |marker(|text|)|;
    if kept > 0 {
      assert |marker(|text| - kept)| <= |marker(|text|)|;
      assert Abridged(marker, text, Truncate(marker, text, limit), kept / 2, kept - kept / 2);
    }
  }

  // ---------------------------------------------------------- log records

  /** What a filter may see of a record: arguments and exception information kept abstract. */
  datatype View = View(level: int, msg: string, args: Option<string>, excInfo: Option<string>, excText: Option<string>)

  /** How messages, exceptions and markers are rendered; rendering a message may fail. */
  datatype Renderer = Renderer(
    message: (string, string) -> Option<string>, exception: string -> string, marker: nat -> string)

  function Message(r: Renderer, v: View): Option<string>
  {
    if v.args.Some? then r.message(v.msg, v.args.value) else Some(v.msg)
  }

  function ExceptionText(r: Renderer, v: View): string
    requires v.excInfo.Some?
  {
    if v.excText.Some? && v.excText.value != "" then v.excText.value else r.exception(v.excInfo.value)
  }

  /** The record after the filter. */
  function Filtered(r: Renderer, v: View, limit: int): View
  {
    if v.level < INFO || limit <= 0 || Message(r, v).None? then v
    else
      var m := Message(r, v).value;
      var w := if |m| > limit then v.(msg := Truncate(r.marker, m, limit), args := None) else v;
      if v.excInfo.Some? && |ExceptionText(r, v)| > limit
      then w.(excText := Some(Truncate(r.marker, ExceptionText(r, v), limit)))
      else w
  }

  class LogRecord {
    var level: int
    var msg: string
    var args: Option<string>
    var excInfo: Option<string>
    var excText: Option<string>

    constructor (v: View)
      ensures Value() == v
    {
      level, msg, args, excInfo, excText := v.level, v.msg, v.args, v.excInfo, v.excText;
    }

    function Value(): View
      reads this
    {
      View(level, msg, args, excInfo, excText)
    }
  }

  /** The filter: every record passes, oversized text is replaced in place. */
  method Filter(r: Renderer, record: LogRecord, limit: int) returns (passes: bool)
    modifies record
    ensures passes && record.Value() == Filtered(r, old(record.Value()), limit)
  {
    passes := true;
    if record.level < INFO || limit <= 0 {
      return;
    }
    var message := Message(r, record.Value());
    if message.None? {
      return;
    }
    if |message.value| > limit {
      record.msg := Truncate(r.marker, message.value, limit);
      record.args := None;
    }
    if record.excInfo.Some? {
      var text := ExceptionText(r, record.Value());
      if |text| > limit {
        record.excText := Some(Truncate(r.marker, text, limit));
      }
    }
  }

  /** What reaches stdout is bounded: the message, and the exception text that goes with it. */
  lemma FilterBounds(r: Renderer, v: View, limit: int)
    requires Monotone(r.marker) && v.level >= INFO && limit > 0 && Message(r, v).Some?
    ensures var w := Filtered(r, v, limit);
            && Message(r, w).Some? && |Message(r, w).value| <= limit
            && w.excInfo == v.excInfo && (w.excInfo.Some? ==> |ExceptionText(r, w)| <= limit)
  {
    var m := Message(r, v).value;
    if |m| > limit {
      TruncateExact(r.marker, m, limit);
    }
    if v.excInfo.Some? && |ExceptionText(r, v)| > limit {
      TruncateExact(r.marker, ExceptionText(r, v), limit);
    }
  }

  /** Records below INFO, without a positive limit, or whose message cannot be rendered are left alone. */
  lemma LeftAlone(r: Renderer, v: View, limit: int)
    requires v.level < 20 || limit <= 0 || (v.args.Some? && r.message(v.msg, v.args.value) == None)
    ensures Filtered(r, v, limit) == v
  {
  }

  /**
   * What becomes of every other record, whose message renders as m and whose exception, if any,
   * as x: a text within the limit reads as before, a longer one reads as its truncation, and
   * nothing else changes.
   */
  lemma FilterExact(r: Renderer, v: View, limit: int, m: string, x: string)
    requires v.level >= 20 && limit > 0
    requires if v.args.Some? then r.message(v.msg, v.args.value) == Some(m) else v.msg == m
    requires v.excInfo.Some? ==>
               if v.excText.Some? && v.excText.value != "" then x == v.excText.value else x == r.exception(v.excInfo.value)
    ensures var w := Filtered(r, v, limit);
            && w.level == v.level && w.excInfo == v.excInfo
            && (if |m| <= limit then w.msg == v.msg && w.args == v.args else w.msg == Truncate(r.marker, m, limit) && w.args.None?)
            && w.excText == if v.excInfo.Some? && |x| > limit then Some(Truncate(r.marker, x, limit)) else v.excText
  {
  }

  /** A record that passes the filter again is left as it is. */
  lemma FilterIdempotent(r: Renderer, v: View, limit: int)
    requires Monotone(r.marker)
    ensures Filtered(r, Filtered(r, v, limit), limit) == Filtered(r, v, limit)
  {
    if v.level >= INFO && limit > 0 && Message(r, v).Some? {
      FilterBounds(r, v, limit);
    }
  }

  /** With the marker the logger uses, a second pass changes nothing. */
  lemma StdoutIdempotent(
    message: (string, string) -> Option<string>, exception: string -> string, v: View, limit: int)
    ensures var r := Renderer(message, exception, Marker);
            Filtered(r, Filtered(r, v, limit), limit) == Filtered(r, v, limit)
  {
    MarkerMonotone();
    FilterIdempotent(Renderer(message, exception, Marker), v, limit);
  }

  // ------------------------------------------------- embedded dictionaries

  /** Opening braces less closing braces. */
  function Depth(s: string): int
  {
    if s == "" then 0
    else Depth(s[..|s| - 1]) + (if s[|s| - 1] == '{' then 1 else if s[|s| - 1] == '}' then -1 else 0)
  }

  /** The depth after position k, counting from `start`. */
  function DepthAt(s: string, start: nat, k: nat): int
    requires start <= k < |s|
  {
    Depth(s[start..k + 1])
  }

  /** Position j is the first at which the braces opened from `start` on are all closed. */
  ghost predicate Balances(s: string, start: nat, j: nat)
  {
    && start <= j < |s| && s[start] == '{' && DepthAt(s, start, j) == 0
    && forall k :: start <= k < j ==> DepthAt(s, start, k) > 0
  }

  /** The text from `start` to its balancing brace evaluates to a non-empty dictionary. */
  ghost predicate Parses<D>(eval: string -> Option<D>, s: string, start: nat, j: nat)
  {
    Balances(s, start, j) && eval(s[start..j + 1]).Some?
  }

  lemma BalanceUnique(s: string, start: nat, i: nat, j: nat)
    requires Balances(s, start, i) && Balances(s, start, j)
    ensures i == j
  {
  }

  lemma DepthNext(s: string, start: nat, j: nat)
    requires start <= j < |s|
    ensures DepthAt(s, start, j) == Depth(s[start..j]) + (if s[j] == '{' then 1 else if s[j] == '}' then -1 else 0)
  {
    assert s[start..j + 1][..j - start] == s[start..j];
  }

  /** `message.find("{", i)`. */
  function Find(s: string, i: nat): (start: int)
    requires i <= |s|
    ensures start == -1 || (i <= start < |s| && s[start] == '{')
    ensures forall k :: i <= k < (if start == -1 then |s| else start) ==> s[k] != '{'
    decreases |s| - i
  {
    if i == |s| then -1 else if s[i] == '{' then i else Find(s, i + 1)
  }

  /** The first brace that balances the one at `start`, if any does. */
  method Close(s: string, start: nat) returns (end: Option<nat>)
    requires start < |s| && s[start] == '{'
    ensures end.Some? ==> Balances(s, start, end.value)
    ensures end.None? ==> forall j: nat :: !Balances(s, start, j)
  {
    var depth := 0;
    for j := start to |s|
      invariant depth == Depth(s[start..j])
      invariant forall k :: start <= k < j ==> DepthAt(s, start, k) > 0
      invariant start < j ==> depth > 0
    {
      DepthNext(s, start, j);
      if s[j] == '{' {
        depth := depth + 1;
      } else if s[j] == '}' {
        depth := depth - 1;
        if depth == 0 {
          return Some(j);
        }
      }
    }
    end := None;
  }

  /**
   * The scan finds the leftmost brace whose text, up to its first balancing brace, evaluates to
   * a non-empty dictionary; it finds nothing exactly when there is no such brace.
   */
  method TryParseEmbedded<D>(eval: string -> Option<D>, s: string) returns (r: Option<D>, ghost at: nat, ghost end: nat)
    ensures r.Some? ==> Parses(eval, s, at, end) && r == eval(s[at..end + 1])
    ensures r.Some? ==> forall start: nat, j: nat :: start < at ==> !Parses(eval, s, start, j)
    ensures r.None? <==> forall start: nat, j: nat :: !Parses(eval, s, start, j)
  {
    at, end := 0, 0;
    var i := 0;
    while i < |s|
      invariant 0 <= i <= |s|
      invariant forall start: nat, j: nat :: start < i ==> !Parses(eval, s, start, j)
    {
      var start := Find(s, i);
      if start == -1 {
        break;
      }
      var close := Close(s, start);
      if close.Some? {
        r := eval(s[start..close.value + 1]);
        if r.Some? {
          at, end := start, close.value;
          assert forall b: nat, j: nat :: b < at ==> !Parses(eval, s, b, j);
          return;
        }
      }
      forall j: nat ensures !Parses(eval, s, start, j) {
        if Balances(s, start, j) {
          BalanceUnique(s, start, close.value, j);
        }
      }
      i := start + 1;
    }
    r := None;
  }
}
