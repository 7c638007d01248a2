/** The partial-update SET-clause builder of helpers/sql.js, and a reference
    reader of the clause it produces. */
module Sql {
  import opened Errors
  import opened Decimal

  /** What the builder returns: the text to splice after `SET` and the values
      bound to its placeholders, `$1` first. */
  datatype Update<V> = Update(setCols: string, values: seq<V>)

  /** One `"<column>"=$<n>` assignment, as read back from a SET clause. */
  datatype Assignment = Assignment(column: string, placeholder: nat)

  /** A present or absent value: what the clause reader returns. */
  datatype Option<+T> = None | Some(value: T)

  /** The fields to update, in the object's key enumeration order. */
  type Fields<V> = seq<(string, V)>

  /** The column a field is written to: the mapped name when `jsToSql` has a
      truthy (present and non-empty) entry, else the field name itself. */
  function ColumnName(jsToSql: map<string, string>, field: string): string
  {
    if field in jsToSql && jsToSql[field] != "" then jsToSql[field] else field
  }

  function Fragment(column: string, placeholder: nat): string
  {
    "\"" + column + "\"=$" + FromNat(placeholder)
  }

  /** Array.prototype.join: the parts with `sep` between neighbours. */
  function Join(parts: seq<string>, sep: string): string
  {
    if |parts| == 0 then ""
    else if |parts| == 1 then parts[0]
    else parts[0] + sep + Join(parts[1..], sep)
  }

  function Fragments<V>(data: Fields<V>, jsToSql: map<string, string>): (frags: seq<string>)
    ensures |frags| == |data|
  {
    seq(|data|, i requires 0 <= i < |data| => Fragment(ColumnName(jsToSql, data[i].0), i + 1))
  }

  /** sqlForPartialUpdate: BadRequest("No data") for an empty object, otherwise
      the joined assignments and the values in key order. */
  function SqlForPartialUpdate<V>(data: Fields<V>, jsToSql: map<string, string>): (r: Result<Update<V>>)
    ensures r.Err? <==> |data| == 0
    ensures r.Err? ==> r.error == BadRequest("No data")
    ensures r.Ok? ==> |r.value.values| == |data|
    ensures r.Ok? ==> forall i :: 0 <= i < |data| ==> r.value.values[i] == data[i].1
  {
    if |data| == 0 then Err(BadRequest("No data"))
    else
      Ok(Update(Join(Fragments(data, jsToSql), ", "),
                seq(|data|, i requires 0 <= i < |data| => data[i].1)))
  }

  // ---------------------------------------------------------------------------
  // Reading a SET clause back

  /** Splits s at its first double quote: the text before it and after it. */
  function SplitAtQuote(s: string): (r: Option<(string, string)>)
    ensures r.Some? ==> |r.value.1| < |s|
    ensures r.Some? ==> '"' !in r.value.0 && s == r.value.0 + ['"'] + r.value.1
    ensures r.None? ==> '"' !in s
  {
    if |s| == 0 then None
    else if s[0] == '"' then Some(([], s[1..]))
    else match SplitAtQuote(s[1..])
      case None => None
      case Some(p) => Some(([s[0]] + p.0, p.1))
  }

  /** The number of decimal digits s starts with. */
  function DigitPrefix(s: string): (k: nat)
    ensures k <= |s| && AllDigits(s[..k])
    ensures k < |s| ==> !IsDigit(s[k])
  {
    if |s| == 0 || !IsDigit(s[0]) then 0 else 1 + DigitPrefix(s[1..])
  }

  /** Reads one `"<column>"=$<n>` assignment from the front of s, n written
      without leading zeros, and returns it with the unread remainder. */
  function ReadAssignment(s: string): (r: Option<(Assignment, string)>)
    ensures r.Some? ==> |r.value.1| < |s|
    ensures r.Some? ==> '"' !in r.value.0.column
  {
    if |s| == 0 || s[0] != '"' then None
    else match SplitAtQuote(s[1..])
      case None => None
      case Some((column, rest)) =>
        if |rest| < 2 || rest[0] != '=' || rest[1] != '$' then None
        else
          var digits := rest[2..];
          var k := DigitPrefix(digits);
          if k == 0 || (k > 1 && digits[0] == '0') then None
          else Some((Assignment(column, ToNat(digits[..k])), digits[k..]))
  }

  /** Reads a whole SET clause: one or more assignments separated by `", "`,
      nothing before the first and nothing after the last. */
  function ParseSetClause(s: string): (r: Option<seq<Assignment>>)
    ensures r.Some? ==> |r.value| > 0
    ensures r.Some? ==> forall i :: 0 <= i < |r.value| ==> '"' !in r.value[i].column
    decreases |s|
  {
    match ReadAssignment(s)
    case None => None
    case Some((a, rest)) =>
      if |rest| == 0 then Some([a])
      else if |rest| >= 2 && rest[0] == ',' && rest[1] == ' ' then
        match ParseSetClause(rest[2..])
        case None => None
        case Some(more) => Some([a] + more)
      else None
  }

  lemma SpliceShape(s: string, column: string, rest: string, n: string, tail: string)
    requires |s| > 0 && s[0] == '"'
    requires s[1..] == column + ['"'] + rest
    requires rest == "=$" + n + tail
    ensures s == "\"" + column + "\"=$" + n + tail
  {
  }

  /** The reader accepts only rendered text: whatever it reads is the
      rendering of the assignment it returns. */
  lemma ReadIsRendered(s: string)
    requires ReadAssignment(s).Some?
    ensures s == Render(ReadAssignment(s).value.0) + ReadAssignment(s).value.1
  {
    var r := ReadAssignment(s).value;
    assert |s| > 0 && s[0] == '"';
    var sp := SplitAtQuote(s[1..]).value;
    var column := sp.0;
    var rest := sp.1;
    assert |rest| >= 2 && rest[0] == '=' && rest[1] == '$';
    var digits := rest[2..];
    var k := DigitPrefix(digits);
    var n := digits[..k];
    assert k > 0 && !(k > 1 && digits[0] == '0');
    assert r == (Assignment(column, ToNat(n)), digits[k..]);
    FromNatToNat(n);
    assert rest == "=$" + n + digits[k..];
    SpliceShape(s, column, rest, n, digits[k..]);
  }

  /** One step of the reader: an assignment, then either the end or `", "`
      and the rest of the clause. */
  lemma ParseStep(s: string)
    requires ParseSetClause(s).Some?
    ensures ReadAssignment(s).Some?
    ensures var (a, rest) := ReadAssignment(s).value;
            || (|rest| == 0 && ParseSetClause(s).value == [a])
            || (&& |rest| >= 2 && rest == ", " + rest[2..]
                && ParseSetClause(rest[2..]).Some?
                && ParseSetClause(s).value == [a] + ParseSetClause(rest[2..]).value)
  {
  }

  lemma ParseStepCons(s: string)
    requires ParseSetClause(s).Some? && ReadAssignment(s).Some?
    requires |ReadAssignment(s).value.1| > 0
    ensures var rest := ReadAssignment(s).value.1;
            && |rest| >= 2 && rest == ", " + rest[2..]
            && ParseSetClause(rest[2..]).Some?
            && ParseSetClause(s).value == [ReadAssignment(s).value.0] + ParseSetClause(rest[2..]).value
  {
  }

  lemma JoinRenderedCons(a: Assignment, more: seq<Assignment>)
    requires |more| > 0
    ensures Join(RenderAll([a] + more), ", ") == Render(a) + ", " + Join(RenderAll(more), ", ")
  {
    var parts := RenderAll([a] + more);
    assert parts[1..] == RenderAll(more);
  }

  lemma ParsedSingle(s: string)
    requires ParseSetClause(s).Some? && ReadAssignment(s).Some?
    requires |ReadAssignment(s).value.1| == 0
    ensures s == Join(RenderAll(ParseSetClause(s).value), ", ")
  {
    ParseStep(s);
    ReadIsRendered(s);
    var a := ReadAssignment(s).value.0;
    assert ParseSetClause(s).value == [a];
    assert s == Render(a) + "";
  }

  lemma ParsedCons(s: string, a: Assignment, rest: string, more: seq<Assignment>)
    requires |more| > 0
    requires s == Render(a) + rest
    requires |rest| >= 2 && rest == ", " + rest[2..]
    requires rest[2..] == Join(RenderAll(more), ", ")
    ensures s == Join(RenderAll([a] + more), ", ")
  {
    JoinRenderedCons(a, more);
  }

  /** Whatever the reader accepts is the `", "`-join of the rendered
      assignments it returns: reading back is the inverse of rendering. */
  lemma {:induction false} ParsedIsJoinRendered(s: string)
    requires ParseSetClause(s).Some?
    ensures s == Join(RenderAll(ParseSetClause(s).value), ", ")
    decreases |s|
  {
    ParseStep(s);
    var rest := ReadAssignment(s).value.1;
    if |rest| == 0 {
      ParsedSingle(s);
    } else {
      var a := ReadAssignment(s).value.0;
      ParseStepCons(s);
      ReadIsRendered(s);
      ParsedIsJoinRendered(rest[2..]);
      ParsedCons(s, a, rest, ParseSetClause(rest[2..]).value);
    }
  }

  // ---------------------------------------------------------------------------
  // What the clause means

  /** The assignments the clause is meant to carry: field i (0-based) is
      written to its column from placeholder `$<i+1>`. */
  function Intended<V>(data: Fields<V>, jsToSql: map<string, string>): (asg: seq<Assignment>)
    ensures |asg| == |data|
  {
    seq(|data|, i requires 0 <= i < |data| => Assignment(ColumnName(jsToSql, data[i].0), i + 1))
  }

  /** Every column the clause names is free of double quotes, so each stays
      inside its own quotes. */
  predicate ColumnsQuoteFree<V>(data: Fields<V>, jsToSql: map<string, string>)
  {
    forall i :: 0 <= i < |data| ==> '"' !in ColumnName(jsToSql, data[i].0)
  }

  function Render(a: Assignment): string
  {
    Fragment(a.column, a.placeholder)
  }

  lemma {:induction false} SplitAtQuoteAfter(c: string, t: string)
    requires '"' !in c
    ensures SplitAtQuote(c + ['"'] + t) == Some((c, t))
  {
    if |c| > 0 {
      assert (c + ['"'] + t)[1..] == c[1..] + ['"'] + t;
      SplitAtQuoteAfter(c[1..], t);
      assert [c[0]] + c[1..] == c;
    } else {
      assert c + ['"'] + t == ['"'] + t;
    }
  }

  lemma {:induction false} DigitPrefixOf(d: string, t: string)
    requires AllDigits(d)
    requires |t| == 0 || !IsDigit(t[0])
    ensures DigitPrefix(d + t) == |d|
  {
    if |d| > 0 {
      assert (d + t)[1..] == d[1..] + t;
      DigitPrefixOf(d[1..], t);
    } else {
      assert d + t == t;
    }
  }

  /** An assignment written and followed by a non-digit is read back whole. */
  lemma ReadRendered(a: Assignment, t: string)
    requires '"' !in a.column
    requires |t| == 0 || !IsDigit(t[0])
    ensures ReadAssignment(Render(a) + t) == Some((a, t))
  {
    var n := FromNat(a.placeholder);
    var rest := "=$" + n + t;
    var s := Render(a) + t;
    assert s == ['"'] + (a.column + ['"'] + rest);
    assert s[0] == '"';
    assert s[1..] == a.column + ['"'] + rest;
    SplitAtQuoteAfter(a.column, rest);
    var digits := rest[2..];
    assert digits == n + t;
    DigitPrefixOf(n, t);
    assert digits[..|n|] == n;
    assert digits[|n|..] == t;
    ToNatFromNat(a.placeholder);
  }

  lemma ParseSingle(a: Assignment)
    requires '"' !in a.column
    ensures ParseSetClause(Render(a)) == Some([a])
  {
    ReadRendered(a, "");
    assert Render(a) + "" == Render(a);
  }

  lemma ParseCons(a: Assignment, restText: string, more: seq<Assignment>)
    requires '"' !in a.column
    requires ParseSetClause(restText) == Some(more)
    ensures ParseSetClause(Render(a) + (", " + restText)) == Some([a] + more)
  {
    ReadRendered(a, ", " + restText);
    assert (", " + restText)[2..] == restText;
  }

  function RenderAll(asg: seq<Assignment>): (parts: seq<string>)
    ensures |parts| == |asg|
  {
    seq(|asg|, i requires 0 <= i < |asg| => Render(asg[i]))
  }

  /** Joining rendered assignments with `", "` and reading the result back
      gives the same assignments. */
  lemma {:induction false} ParseJoinRendered(asg: seq<Assignment>)
    requires |asg| > 0
    requires forall i :: 0 <= i < |asg| ==> '"' !in asg[i].column
    ensures ParseSetClause(Join(RenderAll(asg), ", ")) == Some(asg)
  {
    var parts := RenderAll(asg);
    if |asg| == 1 {
      ParseSingle(asg[0]);
      assert asg == [asg[0]];
    } else {
      var restText := Join(parts[1..], ", ");
      assert Join(parts, ", ") == parts[0] + ", " + restText;
      assert parts[0] + ", " + restText == Render(asg[0]) + (", " + restText);
      assert parts[1..] == RenderAll(asg[1..]);
      ParseJoinRendered(asg[1..]);
      ParseCons(asg[0], restText, asg[1..]);
      assert [asg[0]] + asg[1..] == asg;
    }
  }

  /** The SET clause reads back as one assignment per field, in key order,
      numbered `$1` to `$n`, each to the field's column. */
  lemma SetClauseReadsBack<V>(data: Fields<V>, jsToSql: map<string, string>)
    requires |data| > 0
    requires ColumnsQuoteFree(data, jsToSql)
    ensures SqlForPartialUpdate(data, jsToSql).Ok?
    ensures ParseSetClause(SqlForPartialUpdate(data, jsToSql).value.setCols) == Some(Intended(data, jsToSql))
  {
    var asg := Intended(data, jsToSql);
    assert Fragments(data, jsToSql) == RenderAll(asg);
    ParseJoinRendered(asg);
  }

  /** Each placeholder `$k` of the clause is bound to `values[k-1]`, which is
      the value of the field whose column it assigns. */
  lemma PlaceholdersBindFields<V>(data: Fields<V>, jsToSql: map<string, string>)
    requires |data| > 0
    requires ColumnsQuoteFree(data, jsToSql)
    ensures SqlForPartialUpdate(data, jsToSql).Ok?
    ensures ParseSetClause(SqlForPartialUpdate(data, jsToSql).value.setCols).Some?
    ensures var u := SqlForPartialUpdate(data, jsToSql).value;
            var p := ParseSetClause(u.setCols).value;
            && |p| == |data| == |u.values|
            && forall i :: 0 <= i < |data| ==>
                 && p[i].placeholder == i + 1
                 && u.values[p[i].placeholder - 1] == data[i].1
                 && (data[i].0 in jsToSql && jsToSql[data[i].0] != "" ==> p[i].column == jsToSql[data[i].0])
                 && (data[i].0 !in jsToSql || jsToSql[data[i].0] == "" ==> p[i].column == data[i].0)
  {
    SetClauseReadsBack(data, jsToSql);
  }

  lemma {:induction false} JoinEnds(parts: seq<string>, sep: string)
    requires |parts| > 0
    requires forall i :: 0 <= i < |parts| ==> |parts[i]| > 0
    ensures var j := Join(parts, sep);
            |j| > 0 && j[0] == parts[0][0] && j[|j| - 1] == parts[|parts| - 1][|parts[|parts| - 1]| - 1]
  {
    if |parts| > 1 {
      JoinEnds(parts[1..], sep);
    }
  }

  /** The clause starts with the opening quote of the first column and ends
      with the last digit of the last placeholder: no separator dangles at
      either end. */
  lemma SetClauseHasNoDanglingSeparator<V>(data: Fields<V>, jsToSql: map<string, string>)
    requires |data| > 0
    ensures SqlForPartialUpdate(data, jsToSql).Ok?
    ensures var c := SqlForPartialUpdate(data, jsToSql).value.setCols;
            && |c| > 0 && c[0] == '"' && IsDigit(c[|c| - 1])
            && !(|c| >= 2 && c[..2] == ", ")
            && !(|c| >= 2 && c[|c| - 2..] == ", ")
  {
    var frags := Fragments(data, jsToSql);
    forall i | 0 <= i < |frags|
      ensures |frags[i]| > 0 && frags[i][0] == '"' && IsDigit(frags[i][|frags[i]| - 1])
    {
      var n := FromNat(i + 1);
      assert frags[i] == "\"" + ColumnName(jsToSql, data[i].0) + "\"=$" + n;
    }
    JoinEnds(frags, ", ");
  }

  /** The clause reads back as the intended assignments exactly when no
      column it names holds a double quote: a quote in a column (mapped or
      fallen back to the field name) is spliced unescaped and ends the
      identifier early. */
  lemma SetClauseReadsBackIffQuoteFree<V>(data: Fields<V>, jsToSql: map<string, string>)
    requires |data| > 0
    ensures SqlForPartialUpdate(data, jsToSql).Ok?
    ensures ParseSetClause(SqlForPartialUpdate(data, jsToSql).value.setCols) == Some(Intended(data, jsToSql))
            <==> ColumnsQuoteFree(data, jsToSql)
  {
    var asg := Intended(data, jsToSql);
    if ColumnsQuoteFree(data, jsToSql) {
      SetClauseReadsBack(data, jsToSql);
    } else {
      var i :| 0 <= i < |data| && '"' in ColumnName(jsToSql, data[i].0);
      assert '"' in asg[i].column;
    }
  }

  /** The builder's text is the only text that reads back as the intended
      assignments: placeholders are written exactly as `$1` .. `$n`. */
  lemma SetClauseIsTheOnlyReading<V>(data: Fields<V>, jsToSql: map<string, string>, s: string)
    requires |data| > 0
    requires ParseSetClause(s) == Some(Intended(data, jsToSql))
    ensures SqlForPartialUpdate(data, jsToSql).Ok?
    ensures s == SqlForPartialUpdate(data, jsToSql).value.setCols
  {
    var asg := Intended(data, jsToSql);
    ParsedIsJoinRendered(s);
    assert Fragments(data, jsToSql) == RenderAll(asg);
  }

  // ---------------------------------------------------------------------------
  // The source's own examples

  /** Field values of mixed JavaScript types, for the worked examples. */
  datatype JsValue = Text(s: string) | Number(n: int)

  /** `{firstName: 'Aliya', age: 32}` with `{firstName: 'first_name'}`. */
  lemma AliyaExample()
    ensures SqlForPartialUpdate([("firstName", Text("Aliya")), ("age", Number(32))],
                                map["firstName" := "first_name"])
         == Ok(Update("\"first_name\"=$1, \"age\"=$2", [Text("Aliya"), Number(32)]))
  {
    var data := [("firstName", Text("Aliya")), ("age", Number(32))];
    var jsToSql := map["firstName" := "first_name"];
    assert FromNat(1) == "1";
    assert FromNat(2) == "2";
    assert ColumnName(jsToSql, "age") == "age";
    var frags := Fragments(data, jsToSql);
    assert frags[0] == "\"first_name\"=$1";
    assert frags[1] == "\"age\"=$2";
    assert Join(frags, ", ") == frags[0] + ", " + frags[1];
    assert Join(frags, ", ") == "\"first_name\"=$1, \"age\"=$2";
    var values := seq(|data|, i requires 0 <= i < |data| => data[i].1);
    assert values == [Text("Aliya"), Number(32)];
    var r := SqlForPartialUpdate(data, jsToSql);
    assert r.Ok?;
    assert r.value.setCols == Join(frags, ", ");
    assert r.value.values == values;
  }

  /** An object with no keys is refused whatever the column mapping. */
  lemma NoDataExample()
    ensures SqlForPartialUpdate<JsValue>([], map["firstName" := "first_name"])
         == Err(BadRequest("No data"))
  {
  }
}
