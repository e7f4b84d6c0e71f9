/**
 * The text-building rules of `InfoDisplayer` (lib/infodisplayer.py): the recursive
 * rendering of API data in `recurse_list_or_dict`, the comma-separated lines built with
 * a `first` flag, and the sign prefix of the GMT offset.
 */
module InfoDisplayer {
  import opened Strings

  /** Decoded JSON: an object's members in iteration order, an array, a string, or any
      other scalar given by its Python `str` form ("42", "True", "None"). */
  datatype Json =
    | JDict(entries: seq<(string, Json)>)
    | JList(items: seq<Json>)
    | JStr(s: string)
    | JScalar(text: string)

  predicate IsContainer(v: Json) {
    v.JDict? || v.JList?
  }

  /** `str(data)` of a scalar. */
  function ScalarText(v: Json): string
    requires !IsContainer(v)
  {
    if v.JStr? then v.s else v.text
  }

  /** A string value spanning several lines. */
  predicate MultiLine(v: Json) {
    v.JStr? && '\n' in v.s
  }

  /** `do_jmp`: every list element is followed by a line break, unless it is the last
      one or a single-line string. */
  predicate Jumps(v: Json) {
    !(v.JStr? && '\n' !in v.s)
  }

  /** `recurse_list_or_dict(data, tab)` */
  function Render(data: Json, tab: string): string
    decreases data, 2
  {
    match data
    case JStr(s) => tab + s
    case JScalar(t) => tab + t
    case JList(items) => RenderList(data, |items|, tab)
    case JDict(entries) => RenderDict(data, |entries|, tab)
  }

  /** What a value inside a container contributes: nested containers one tab further
      in, a multi-line string on fresh lines one tab further in, anything else after a
      space on the current line. */
  function Piece(v: Json, tab: string): string
    decreases v, 3
  {
    match v
    case JDict(_) => Render(v, tab + "\t")
    case JList(_) => Render(v, tab + "\t")
    case JStr(s) =>
      if '\n' in s then "\n" + tab + "\t" + ReplaceAll(s, "\n", "\n" + tab + "\t")
      else " " + ReplaceAll(s, "\n", "\n" + tab)
    case JScalar(t) => " " + t
  }

  /** The first `n` elements of a list, each followed by its line break. */
  function RenderList(data: Json, n: nat, tab: string): string
    requires data.JList? && n <= |data.items|
    decreases data, 1, n
  {
    if n == 0 then ""
    else
      var v := data.items[n - 1];
      RenderList(data, n - 1, tab) + Piece(v, tab) + (if n < |data.items| && Jumps(v) then "\n" else "")
  }

  /** The first `n` members of an object, each key on its own line. */
  function RenderDict(data: Json, n: nat, tab: string): string
    requires data.JDict? && n <= |data.entries|
    decreases data, 1, n
  {
    if n == 0 then ""
    else
      var e := data.entries[n - 1];
      RenderDict(data, n - 1, tab) + "\n" + tab + e.0 + Piece(e.1, tab)
  }

  /** `InfoDisplayer.recurse_list_or_dict` (lib/infodisplayer.py:493-531). */
  method RecurseListOrDict(data: Json, tab: string) returns (line: string)
    ensures line == Render(data, tab)
    decreases data, 3
  {
    if !IsContainer(data) {
      return tab + ScalarText(data);
    }
    line := "";
    if data.JList? {
      var length := |data.items|;
      for i := 0 to length
        invariant line == RenderList(data, i, tab)
      {
        var value := data.items[i];
        var doJmp := true;
        if value.JStr? && '\n' !in value.s {
          doJmp := false;
        }
        line := AppendValue(line, value, tab);
        if i < length - 1 && doJmp {
          line := line + "\n";
        }
      }
    } else {
      for i := 0 to |data.entries|
        invariant line == RenderDict(data, i, tab)
      {
        var (key, value) := data.entries[i];
        line := line + "\n" + tab + key;
        line := AppendValue(line, value, tab);
      }
    }
  }

  /** The branches on a member or element's type that both loops of
      `recurse_list_or_dict` share (lib/infodisplayer.py:503-513, 519-529). */
  method AppendValue(line: string, value: Json, tab: string) returns (r: string)
    ensures r == line + Piece(value, tab)
    decreases value, 4
  {
    if value.JDict? || value.JList? {
      var nested := RecurseListOrDict(value, tab + "\t");
      r := line + nested;
    } else if value.JStr? {
      if '\n' in value.s {
        r := line + "\n" + tab + "\t";
        r := r + ReplaceAll(value.s, "\n", "\n" + tab + "\t");
      } else {
        r := line + " ";
        r := r + ReplaceAll(value.s, "\n", "\n" + tab);
      }
    } else {
      r := line + " " + value.text;
    }
  }

  /** Replacing a one-character pattern is splitting on it and joining with the
      replacement. */
  lemma {:induction false} ReplaceIsSplitJoin(s: string, c: char, rep: string)
    ensures ReplaceAll(s, [c], rep) == Join(Split(s, [c]), rep)
    decreases |s|
  {
    if |s| >= 1 {
      ReplaceIsSplitJoin(s[1..], c, rep);
      var rest := Split(s[1..], [c]);
      if s[..1] != [c] {
        JoinConsFirst(s[0], rest, rep);
      }
    }
  }

  lemma JoinConsFirst(a: char, xs: seq<string>, sep: string)
    requires |xs| > 0
    ensures Join([[a] + xs[0]] + xs[1..], sep) == [a] + Join(xs, sep)
  {
    var ys := [[a] + xs[0]] + xs[1..];
    assert ys[1..] == xs[1..];
  }

  /** A string without line breaks is left as it is by the replace on the single-line
      path: the value is printed verbatim after one space. */
  lemma SingleLineStringVerbatim(s: string, tab: string)
    requires '\n' !in s
    ensures Piece(JStr(s), tab) == " " + s
  {
    CharNotContained(s, '\n');
    ReplaceAllWithoutMatch(s, "\n", "\n" + tab);
  }

  lemma CharNotContained(s: string, c: char)
    requires c !in s
    ensures !Contains(s, [c])
  {
    forall i | 0 <= i <= |s| ensures !MatchAt(s, [c], i) {
      if i + 1 <= |s| {
        assert s[i] != c;
        assert s[i..i + 1] == [s[i]];
      }
    }
  }

  /** A multi-line string value is printed line by line, each of its lines on a line of
      its own, indented one tab further than its container. */
  lemma MultiLineStringIndented(s: string, tab: string)
    requires '\n' in s
    ensures |Split(s, "\n")| >= 2
    ensures Piece(JStr(s), tab) == "\n" + tab + "\t" + Join(Split(s, "\n"), "\n" + tab + "\t")
  {
    ReplaceIsSplitJoin(s, '\n', "\n" + tab + "\t");
    if |Split(s, "\n")| < 2 {
      SplitSingle(s, '\n');
    }
  }

  /** A string that splits into one piece contains no separator. */
  lemma {:induction false} SplitSingle(s: string, c: char)
    requires |Split(s, [c])| == 1
    ensures c !in s
    decreases |s|
  {
    if |s| >= 1 {
      assert s[..1] != [c];
      SplitSingle(s[1..], c);
      assert s == [s[0]] + s[1..];
    }
  }

  /** A list of single-line strings prints on one line, each string after a space. */
  lemma SingleLineStringsShareALine(items: seq<Json>, tab: string)
    requires forall i :: 0 <= i < |items| ==> items[i].JStr? && '\n' !in items[i].s
    ensures Render(JList(items), tab) == Join(seq(|items|, i requires 0 <= i < |items| => " " + items[i].s), "")
  {
    SingleLineStringsPrefix(JList(items), |items|, tab);
  }

  lemma {:induction false} SingleLineStringsPrefix(data: Json, n: nat, tab: string)
    requires data.JList? && n <= |data.items|
    requires forall i :: 0 <= i < |data.items| ==> data.items[i].JStr? && '\n' !in data.items[i].s
    ensures RenderList(data, n, tab) ==
      Join(seq(n, i requires 0 <= i < n => " " + data.items[i].s), "")
    decreases n
  {
    var items := data.items;
    var pieces := seq(n, i requires 0 <= i < n => " " + items[i].s);
    if n > 0 {
      SingleLineStringsPrefix(data, n - 1, tab);
      SingleLineStringStep(data, n, tab);
      var init := seq(n - 1, i requires 0 <= i < n - 1 => " " + items[i].s);
      assert pieces == init + [" " + items[n - 1].s];
      JoinConcatenates(init, " " + items[n - 1].s);
    }
  }

  lemma SingleLineStringStep(data: Json, n: nat, tab: string)
    requires data.JList? && 0 < n <= |data.items|
    requires data.items[n - 1].JStr? && '\n' !in data.items[n - 1].s
    ensures RenderList(data, n, tab) == RenderList(data, n - 1, tab) + (" " + data.items[n - 1].s)
  {
    SingleLineStringVerbatim(data.items[n - 1].s, tab);
  }

  /** A list of non-string scalars prints one value per line, each after a space. */
  lemma ScalarsOnePerLine(items: seq<Json>, tab: string)
    requires forall i :: 0 <= i < |items| ==> items[i].JScalar?
    ensures Render(JList(items), tab) == Join(seq(|items|, i requires 0 <= i < |items| => " " + items[i].text), "\n")
  {
    if |items| > 0 {
      ScalarsPrefix(JList(items), |items|, tab);
    }
  }

  lemma {:induction false} ScalarsPrefix(data: Json, n: nat, tab: string)
    requires data.JList? && 0 < n <= |data.items|
    requires forall i :: 0 <= i < |data.items| ==> data.items[i].JScalar?
    ensures RenderList(data, n, tab) ==
      Join(seq(n, i requires 0 <= i < n => " " + data.items[i].text), "\n") + (if n < |data.items| then "\n" else "")
    decreases n
  {
    var items := data.items;
    var pieces := seq(n, i requires 0 <= i < n => " " + items[i].text);
    if n > 1 {
      ScalarsPrefix(data, n - 1, tab);
      assert pieces[..n - 1] == seq(n - 1, i requires 0 <= i < n - 1 => " " + items[i].text);
      assert pieces == pieces[..n - 1] + [pieces[n - 1]];
      JoinAppend(pieces[..n - 1], pieces[n - 1], "\n");
    }
  }

  /** One member of a flat object: the key on a fresh line indented by `tab`, then a
      space and the value. */
  function MemberLine(e: (string, Json), tab: string): string
    requires !IsContainer(e.1)
  {
    "\n" + tab + e.0 + " " + ScalarText(e.1)
  }

  /** An object whose values are scalars or single-line strings prints one member per
      line: the key, indented by `tab`, then a space and the value. */
  lemma FlatObjectOneMemberPerLine(entries: seq<(string, Json)>, tab: string)
    requires forall i :: 0 <= i < |entries| ==> !IsContainer(entries[i].1) && !MultiLine(entries[i].1)
    ensures Render(JDict(entries), tab) ==
      Join(seq(|entries|, i requires 0 <= i < |entries| => MemberLine(entries[i], tab)), "")
  {
    FlatObjectPrefix(JDict(entries), |entries|, tab);
  }

  /** A scalar or single-line string follows its key after a space, verbatim. */
  lemma FlatPiece(v: Json, tab: string)
    requires !IsContainer(v) && !MultiLine(v)
    ensures Piece(v, tab) == " " + ScalarText(v)
  {
    if v.JStr? {
      SingleLineStringVerbatim(v.s, tab);
    }
  }

  lemma {:induction false} FlatObjectPrefix(data: Json, n: nat, tab: string)
    requires data.JDict? && n <= |data.entries|
    requires forall i :: 0 <= i < |data.entries| ==> !IsContainer(data.entries[i].1) && !MultiLine(data.entries[i].1)
    ensures RenderDict(data, n, tab) == Join(seq(n, i requires 0 <= i < n => MemberLine(data.entries[i], tab)), "")
    decreases n
  {
    var es := data.entries;
    var pieces := seq(n, i requires 0 <= i < n => MemberLine(es[i], tab));
    if n > 0 {
      FlatObjectPrefix(data, n - 1, tab);
      FlatMemberStep(data, n, tab);
      var init := seq(n - 1, i requires 0 <= i < n - 1 => MemberLine(es[i], tab));
      assert pieces == init + [MemberLine(es[n - 1], tab)];
      JoinConcatenates(init, MemberLine(es[n - 1], tab));
    }
  }

  lemma FlatMemberStep(data: Json, n: nat, tab: string)
    requires data.JDict? && 0 < n <= |data.entries|
    requires !IsContainer(data.entries[n - 1].1) && !MultiLine(data.entries[n - 1].1)
    ensures RenderDict(data, n, tab) == RenderDict(data, n - 1, tab) + MemberLine(data.entries[n - 1], tab)
  {
    FlatPiece(data.entries[n - 1].1, tab);
  }

  /** Joining with no separator concatenates. */
  lemma JoinConcatenates(xs: seq<string>, x: string)
    ensures Join(xs + [x], "") == Join(xs, "") + x
  {
    if |xs| == 0 {
      assert xs + [x] == [x];
    } else {
      JoinAppend(xs, x, "");
    }
  }

  // ---------------------------------------------------------------------------
  // Lines joined with a `first` flag (lib/infodisplayer.py:125-132, 145-153)

  const MethodsLead := "    "
  const AllowedValuesLead := "            allowed values: "

  /** `lead` followed by the items, a comma and a space between consecutive ones. */
  method CommaJoinLine(lead: string, items: seq<string>) returns (line: string)
    ensures line == lead + Join(items, ", ")
  {
    line := lead;
    var first := true;
    for i := 0 to |items|
      invariant first <==> i == 0
      invariant line == lead + Join(items[..i], ", ")
    {
      assert items[..i + 1] == items[..i] + [items[i]];
      if first {
        line := line + items[i];
        first := false;
      } else {
        JoinAppend(items[..i], items[i], ", ");
        line := line + ", " + items[i];
      }
    }
    assert items[..|items|] == items;
  }

  /** The methods line of an endpoint (lib/infodisplayer.py:125-132). */
  method MethodsLine(methods: seq<string>) returns (line: string)
    ensures line == MethodsLead + Join(methods, ", ")
  {
    line := CommaJoinLine(MethodsLead, methods);
  }

  /** The allowed-values line of an argument with an `enum` (lib/infodisplayer.py:145-153). */
  method AllowedValuesLine(values: seq<string>) returns (line: string)
    ensures line == AllowedValuesLead + Join(values, ", ")
  {
    line := CommaJoinLine(AllowedValuesLead, values);
  }

  /** The joined items can be read back by splitting on the separator, as long as no
      item itself contains a comma followed by a space. */
  lemma CommaJoinReadsBack(lead: string, items: seq<string>)
    requires |items| > 0
    requires forall i :: 0 <= i < |items| ==> !Contains(items[i], ", ")
    ensures Split((lead + Join(items, ", "))[|lead|..], ", ") == items
  {
    assert Unbordered(", ");
    SplitJoin(items, ", ");
    assert (lead + Join(items, ", "))[|lead|..] == Join(items, ", ");
  }

  // ---------------------------------------------------------------------------
  // The GMT offset (lib/infodisplayer.py:57-59)

  /** `str(gmt_offset)`, given a `+` in front unless it already contains a `-`. */
  function GmtOffsetLabel(text: string): (r: string)
    ensures '-' in text ==> r == text
    ensures '-' !in text ==> r == "+" + text && '-' !in r
  {
    if '-' in text then text else "+" + text
  }

  /** For a whole-hour offset the label is always signed: `-` and the digits of its
      magnitude for a negative offset, `+` and its digits otherwise. */
  lemma GmtOffsetSigned(n: int)
    ensures GmtOffsetLabel(IntToDecimal(n)) == (if n < 0 then "-" else "+") + IntToDecimal(if n < 0 then -n else n)
  {
    IntToDecimalRoundTrip(n);
  }
}
