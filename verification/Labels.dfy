/** Metric label values: escaped so that a scraper of the Prometheus text format reads them back. */
module Labels {
  import opened Reports

  function EscapeChar(c: char): string {
    if c == '\\' then ['\\', '\\']
    else if c == '"' then ['\\', '"']
    else if c == '\n' then ['\\', 'n']
    else [c]
  }

  /** `escapeLabel` */
  function Escape(v: string): string {
    if v == [] then [] else EscapeChar(v[0]) + Escape(v[1..])
  }

  /** A label value as read and the text after its closing quote. */
  datatype Read = Read(value: string, rest: string)

  function Before(c: char, r: Option<Read>): Option<Read> {
    if r.None? then None else Some(r.value.(value := [c] + r.value.value))
  }

  /** The label value that starts after an opening quote, by the text exposition format: a backslash
      escapes a backslash, a quote or an n; a bare quote ends the value; a bare newline is malformed. */
  function ReadValue(text: string): Option<Read> {
    if text == [] || text[0] == '\n' then None
    else if text[0] == '"' then Some(Read([], text[1..]))
    else if text[0] != '\\' then Before(text[0], ReadValue(text[1..]))
    else if |text| == 1 then None
    else if text[1] == '\\' || text[1] == '"' then Before(text[1], ReadValue(text[2..]))
    else if text[1] == 'n' then Before('\n', ReadValue(text[2..]))
    else None
  }

  lemma EscapeUnfolds(v: string, rest: string)
    requires v != []
    ensures Escape(v) + ['"'] + rest == EscapeChar(v[0]) + (Escape(v[1..]) + ['"'] + rest)
  {
  }

  lemma ReadEscaped(c: char, text: string)
    ensures ReadValue(EscapeChar(c) + text) == Before(c, ReadValue(text))
  {
    var all := EscapeChar(c) + text;
    if |EscapeChar(c)| == 1 {
      assert all[0] == c && all[1..] == text;
    } else {
      assert all[0] == '\\' && all[1] == EscapeChar(c)[1] && all[2..] == text;
    }
  }

  /** Every value is read back whole, and the quote written after it is the one that ends it. */
  lemma {:induction false} EscapeReadsBack(v: string, rest: string)
    ensures ReadValue(Escape(v) + ['"'] + rest) == Some(Read(v, rest))
  {
    if v == [] {
      assert Escape(v) + ['"'] + rest == ['"'] + rest;
    } else {
      EscapeReadsBack(v[1..], rest);
      EscapeUnfolds(v, rest);
      ReadEscaped(v[0], Escape(v[1..]) + ['"'] + rest);
      assert v == [v[0]] + v[1..];
    }
  }

  lemma {:induction false} EscapeHasNoNewline(v: string)
    ensures '\n' !in Escape(v)
  {
    if v != [] {
      EscapeHasNoNewline(v[1..]);
    }
  }

  /** Escaping never identifies two values. */
  lemma EscapeInjective(a: string, b: string)
    ensures Escape(a) == Escape(b) <==> a == b
  {
    if Escape(a) == Escape(b) {
      EscapeReadsBack(a, []);
      EscapeReadsBack(b, []);
    }
  }

  /** The labels of one findings row. */
  datatype Labels = Labels(cluster: string, section: string, namespace: string, severity: string)

  function Quoted(name: string, v: string, rest: string): string {
    name + (Escape(v) + ['"'] + rest)
  }

  function RowText(l: Labels): string {
    Quoted("{cluster=\"", l.cluster,
           Quoted(",section=\"", l.section,
                  Quoted(",namespace=\"", l.namespace,
                         Quoted(",severity=\"", l.severity, "} "))))
  }

  lemma QuotedSplits(name: string, a: string, b: string, x: string, y: string)
    requires Quoted(name, a, x) == Quoted(name, b, y)
    ensures a == b && x == y
  {
    assert Quoted(name, a, x)[|name|..] == Escape(a) + ['"'] + x;
    assert Quoted(name, b, y)[|name|..] == Escape(b) + ['"'] + y;
    EscapeReadsBack(a, x);
    EscapeReadsBack(b, y);
  }

  /** Whatever clusters, sections and namespaces are called, no two series of the findings gauge collide. */
  lemma RowsApart(a: Labels, b: Labels)
    ensures RowText(a) == RowText(b) <==> a == b
  {
    if RowText(a) == RowText(b) {
      var a3, b3 := Quoted(",severity=\"", a.severity, "} "), Quoted(",severity=\"", b.severity, "} ");
      var a2, b2 := Quoted(",namespace=\"", a.namespace, a3), Quoted(",namespace=\"", b.namespace, b3);
      var a1, b1 := Quoted(",section=\"", a.section, a2), Quoted(",section=\"", b.section, b2);
      QuotedSplits("{cluster=\"", a.cluster, b.cluster, a1, b1);
      QuotedSplits(",section=\"", a.section, b.section, a2, b2);
      QuotedSplits(",namespace=\"", a.namespace, b.namespace, a3, b3);
      QuotedSplits(",severity=\"", a.severity, b.severity, "} ", "} ");
    }
  }

  /** The value of the label that the text begins with, if it is the named one. */
  function ReadLabel(start: string, text: string): Option<Read> {
    if start <= text then ReadValue(text[|start|..]) else None
  }

  lemma QuotedReadsBack(name: string, v: string, rest: string)
    ensures ReadLabel(name, Quoted(name, v, rest)) == Some(Read(v, rest))
  {
    var text := Quoted(name, v, rest);
    EscapeReadsBack(v, rest);
    assert text[..|name|] == name && text[|name|..] == Escape(v) + ['"'] + rest;
  }

  /** A scraper finds the labels cluster, section, namespace and severity, in this order and nothing else. */
  lemma RowReadsBack(l: Labels) returns (a: string, b: string, c: string)
    ensures ReadLabel("{cluster=\"", RowText(l)) == Some(Read(l.cluster, a))
    ensures ReadLabel(",section=\"", a) == Some(Read(l.section, b))
    ensures ReadLabel(",namespace=\"", b) == Some(Read(l.namespace, c))
    ensures ReadLabel(",severity=\"", c) == Some(Read(l.severity, "} "))
  {
    c := Quoted(",severity=\"", l.severity, "} ");
    b := Quoted(",namespace=\"", l.namespace, c);
    a := Quoted(",section=\"", l.section, b);
    QuotedReadsBack("{cluster=\"", l.cluster, a);
    QuotedReadsBack(",section=\"", l.section, b);
    QuotedReadsBack(",namespace=\"", l.namespace, c);
    QuotedReadsBack(",severity=\"", l.severity, "} ");
  }

  lemma QuotedOnOneLine(name: string, v: string, rest: string)
    requires '\n' !in name && '\n' !in rest
    ensures '\n' !in Quoted(name, v, rest)
  {
    EscapeHasNoNewline(v);
  }

  /** A series never breaks its line. */
  lemma RowOnOneLine(l: Labels)
    ensures '\n' !in RowText(l)
  {
    var l3 := Quoted(",severity=\"", l.severity, "} ");
    var l2 := Quoted(",namespace=\"", l.namespace, l3);
    var l1 := Quoted(",section=\"", l.section, l2);
    QuotedOnOneLine(",severity=\"", l.severity, "} ");
    QuotedOnOneLine(",namespace=\"", l.namespace, l3);
    QuotedOnOneLine(",section=\"", l.section, l2);
    QuotedOnOneLine("{cluster=\"", l.cluster, l1);
  }
}
