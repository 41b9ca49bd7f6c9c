/**
 The spreadsheet side of app.py: the `clientes.csv` table as pandas holds it,
 the column repair `normalize_clientes` applies on every load and every save,
 and the status counts of `calculate_metrics`.
 */
module Clientes {
  import opened Wrappers
  import opened Text

  /** A pandas cell: NaN, a string, or a number. */
  datatype Cell = Missing | Str(s: string) | Num(n: int)

  /** A DataFrame: its column labels in order, each label's column of cells,
      and the number of rows. */
  datatype Frame = Frame(order: seq<string>, data: map<string, seq<Cell>>, height: nat)

  /** Labels are unique (read_csv renames a repeated header), every label has
      a column, and every column has one cell per row. */
  predicate WellFormed(f: Frame)
  {
    && Distinct(f.order)
    && (forall n :: n in f.order ==> n in f.data)
    && (forall n :: n in f.data ==> n in f.order)
    && (forall n :: n in f.data ==> |f.data[n]| == f.height)
  }

  /** `EXPECTED_COLUMNS`, in declared order. */
  const Expected: seq<string> :=
    ["nome", "email", "telefone", "empresa", "status", "ultima_interacao", "valor_estm"]

  /** The value a missing expected column is created with. */
  function Fill(name: string): (c: Cell)
    ensures !c.Missing?
    ensures c.Num? <==> name == "valor_estm"
    ensures c == Str("") || c == Num(0)
  {
    if name != "valor_estm" then Str("") else Num(0)
  }

  /** `frame[name] = cells`: an existing column is replaced where it stands,
      a new one goes last. */
  function Assign(f: Frame, name: string, cells: seq<Cell>): (r: Frame)
    requires WellFormed(f) && |cells| == f.height
    ensures WellFormed(r) && r.height == f.height
  {
    var r := Frame(if name in f.data then f.order else f.order + [name], f.data[name := cells], f.height);
    assert forall n :: n in r.order <==> n in r.data by {
      assert forall n :: n in f.order + [name] <==> n in f.order || n == name;
    }
    r
  }

  /** `frame[names]`: the named columns, in the order given. */
  function Select(f: Frame, names: seq<string>): (r: Frame)
    requires WellFormed(f) && Distinct(names)
    requires forall n :: n in names ==> n in f.data
    ensures WellFormed(r) && r.height == f.height
  {
    Frame(names, map n | n in names :: f.data[n], f.height)
  }

  /** `fillna(value)`. */
  function FillNa(cells: seq<Cell>, value: Cell): (r: seq<Cell>)
    ensures |r| == |cells|
    ensures forall i :: 0 <= i < |cells| && !cells[i].Missing? ==> r[i] == cells[i]
    ensures forall i :: 0 <= i < |cells| && cells[i].Missing? ==> r[i] == value
  {
    seq(|cells|, i requires 0 <= i < |cells| => if cells[i].Missing? then value else cells[i])
  }

  /** A conversion applied to every cell of a column. */
  function Apply(g: Cell -> Cell, cells: seq<Cell>): (r: seq<Cell>)
    ensures |r| == |cells|
    ensures forall i :: 0 <= i < |cells| ==> r[i] == g(cells[i])
  {
    seq(|cells|, i requires 0 <= i < |cells| => g(cells[i]))
  }

  /** The labels of `names` not in `drop`, in their order. */
  function Without(names: seq<string>, drop: set<string>): (r: seq<string>)
    ensures forall x :: x in r <==> x in names && x !in drop
  {
    if |names| == 0 then []
    else
      assert names == [names[0]] + names[1..];
      (if names[0] in drop then [] else [names[0]]) + Without(names[1..], drop)
  }

  /** The filter keeps the relative order of what it keeps. */
  lemma {:induction false} WithoutAppend(a: seq<string>, b: seq<string>, drop: set<string>)
    ensures Without(a + b, drop) == Without(a, drop) + Without(b, drop)
    decreases |a|
  {
    if |a| > 0 {
      var h := if a[0] in drop then [] else [a[0]];
      assert (a + b)[0] == a[0] && (a + b)[1..] == a[1..] + b;
      assert Without(a + b, drop) == h + Without(a[1..] + b, drop);
      WithoutAppend(a[1..], b, drop);
      assert Without(a, drop) == h + Without(a[1..], drop);
    } else {
      assert a + b == b;
    }
  }

  /** Nothing to drop: the labels pass unchanged. */
  lemma {:induction false} WithoutNone(names: seq<string>, drop: set<string>)
    requires forall x :: x in names ==> x !in drop
    ensures Without(names, drop) == names
    decreases |names|
  {
    if |names| > 0 {
      assert names == [names[0]] + names[1..];
      WithoutNone(names[1..], drop);
    }
  }

  /** Everything dropped: nothing passes. */
  lemma WithoutAll(names: seq<string>, drop: set<string>)
    requires forall x :: x in names ==> x in drop
    ensures Without(names, drop) == []
  {
  }

  lemma DistinctCons(h: string, e: seq<string>)
    requires Distinct(e) && h !in e
    ensures Distinct([h] + e)
  {
    var s := [h] + e;
    forall i, j | 0 <= i < j < |s|
      ensures s[i] != s[j]
    {
      if i == 0 {
        assert s[j] == e[j - 1];
      } else {
        assert s[i] == e[i - 1] && s[j] == e[j - 1];
      }
    }
  }

  lemma {:induction false} WithoutDistinct(names: seq<string>, drop: set<string>)
    requires Distinct(names)
    ensures Distinct(Without(names, drop))
    decreases |names|
  {
    if |names| > 0 {
      var t := names[1..];
      assert names == [names[0]] + t;
      assert Distinct(t);
      WithoutDistinct(t, drop);
      if names[0] !in drop {
        assert names[0] !in t;
        DistinctCons(names[0], Without(t, drop));
      }
    }
  }

  /** Two unique, disjoint label sequences side by side stay unique. */
  lemma DistinctJoin(a: seq<string>, b: seq<string>)
    requires Distinct(a) && Distinct(b)
    requires forall x :: x in a ==> x !in b
    ensures Distinct(a + b)
  {
    var s := a + b;
    forall i, j | 0 <= i < j < |s|
      ensures s[i] != s[j]
    {
      if j >= |a| && i < |a| {
        assert s[i] in a && s[j] == b[j - |a|];
      }
    }
  }

  /** The expected labels as a set. */
  const ExpectedSet: set<string> :=
    {"nome", "email", "telefone", "empresa", "status", "ultima_interacao", "valor_estm"}

  lemma ExpectedFacts()
    ensures Distinct(Expected)
    ensures forall x :: x in Expected <==> x in ExpectedSet
  {
  }

  /** `n` rows holding `c`. */
  function Constant(c: Cell, n: nat): (r: seq<Cell>)
    ensures |r| == n && forall i :: 0 <= i < n ==> r[i] == c
  {
    seq(n, _ => c)
  }

  /** The cell a completed column holds in row `i`: the input's, or the
      fill value of a column the input lacked. */
  function Before(f: Frame, name: string, i: nat): Cell
    requires WellFormed(f)
  {
    if name in f.data && i < f.height then f.data[name][i] else Fill(name)
  }

  /** The first loop of `normalize_clientes`: every expected label without a
      column gets one, holding its fill value in every row. Each is appended
      as the loop meets it, so the new labels follow the existing ones in
      declared order. */
  function Complete(f: Frame): (r: Frame)
    requires WellFormed(f)
    ensures WellFormed(r) && r.height == f.height
    ensures r.order == f.order + Without(Expected, f.data.Keys)
    ensures forall n :: n in r.data <==> n in f.data || n in ExpectedSet
    ensures forall n, i :: n in r.data && 0 <= i < f.height ==> r.data[n][i] == Before(f, n, i)
  {
    var r := Frame(f.order + Without(Expected, f.data.Keys),
                   f.data + map n | n in ExpectedSet && n !in f.data :: Constant(Fill(n), f.height),
                   f.height);
    ExpectedFacts();
    CompleteFacts(f, r, Expected, ExpectedSet);
    r
  }

  /** The completion, for any unique list of labels `exp` whose set is `expSet`. */
  lemma CompleteFacts(f: Frame, r: Frame, exp: seq<string>, expSet: set<string>)
    requires WellFormed(f) && Distinct(exp) && forall x :: x in exp <==> x in expSet
    requires r.order == f.order + Without(exp, f.data.Keys)
    requires r.data == f.data + map n | n in expSet && n !in f.data :: Constant(Fill(n), f.height)
    requires r.height == f.height
    ensures WellFormed(r)
    ensures forall n :: n in r.data <==> n in f.data || n in expSet
    ensures forall n, i :: n in r.data && 0 <= i < f.height ==> r.data[n][i] == Before(f, n, i)
  {
    var added := Without(exp, f.data.Keys);
    assert Distinct(r.order) by {
      WithoutDistinct(exp, f.data.Keys);
      DistinctJoin(f.order, added);
    }
    assert forall n :: n in r.order <==> n in f.order || n in added;
    CompletedCells(f, r.data, expSet);
  }

  lemma CompletedCells(f: Frame, data: map<string, seq<Cell>>, expSet: set<string>)
    requires WellFormed(f)
    requires data == f.data + map n | n in expSet && n !in f.data :: Constant(Fill(n), f.height)
    ensures forall n, i :: n in data && 0 <= i < f.height ==> data[n][i] == Before(f, n, i)
  {
    forall n, i | n in data && 0 <= i < f.height
      ensures data[n][i] == Before(f, n, i)
    {
      if n !in f.data {
        assert data[n] == Constant(Fill(n), f.height);
      }
    }
  }

  /** `ordered_columns`: the expected labels in declared order, then every
      other label in its original order. */
  function Layout(names: seq<string>): (r: seq<string>)
    ensures |r| >= |Expected| && r[..|Expected|] == Expected
    ensures forall x :: x in r <==> x in Expected || x in names
    ensures Distinct(names) ==> Distinct(r)
  {
    ExpectedFacts();
    LayoutDistinct(names);
    Expected + Without(names, ExpectedSet)
  }

  lemma LayoutDistinct(names: seq<string>)
    ensures Distinct(names) ==> Distinct(Expected + Without(names, ExpectedSet))
  {
    if Distinct(names) {
      ExpectedFacts();
      WithoutDistinct(names, ExpectedSet);
      DistinctJoin(Expected, Without(names, ExpectedSet));
    }
  }

  /** Laying out an already laid-out sequence changes nothing. */
  lemma LayoutIdempotent(names: seq<string>)
    ensures Layout(Layout(names)) == Layout(names)
  {
    ExpectedFacts();
    FrontDropped(Expected, ExpectedSet, names);
  }

  /** Filtering again, after a prefix the filter drops, keeps what the first
      filtering kept. */
  lemma FrontDropped(front: seq<string>, drop: set<string>, names: seq<string>)
    requires forall x :: x in front ==> x in drop
    ensures Without(front + Without(names, drop), drop) == Without(names, drop)
  {
    var e := Without(names, drop);
    WithoutAppend(front, e, drop);
    WithoutAll(front, drop);
    WithoutNone(e, drop);
  }

  /** Which conversion `normalize_clientes` applies to the cells of a
      column: the status fill, the numeric and date conversions, or none. */
  function Convert(name: string, numeric: Cell -> Cell, date: Cell -> Cell, c: Cell): (r: Cell)
    ensures name == "status" && c.Missing? ==> r == Str("Lead")
    ensures name == "status" && !c.Missing? ==> r == c
    ensures name != "status" && name != "valor_estm" && name != "ultima_interacao" ==> r == c
  {
    if name == "status" then (if c.Missing? then Str("Lead") else c)
    else if name == "valor_estm" then numeric(c)
    else if name == "ultima_interacao" then date(c)
    else c
  }

  /** What `normalize_clientes` promises of its result `r`, cell by cell:
      every input column and every expected column is there, once; the
      expected ones lead in declared order and the others follow in their
      input order; and each cell is the input's (or the fill value of a
      column the input lacked) passed through its column's conversion. */
  ghost predicate NormalizedFrom(f: Frame, r: Frame, numeric: Cell -> Cell, date: Cell -> Cell)
    requires WellFormed(f)
  {
    NormalizedBy(f, r, numeric, date, Expected, ExpectedSet)
  }

  /** The same, for any list of expected labels `exp` whose set is `expSet`. */
  ghost predicate NormalizedBy(f: Frame, r: Frame, numeric: Cell -> Cell, date: Cell -> Cell,
                               exp: seq<string>, expSet: set<string>)
    requires WellFormed(f)
  {
    && WellFormed(r) && r.height == f.height
    && r.order == exp + Without(f.order, expSet)
    && (forall n :: n in r.data <==> n in f.data || n in expSet)
    && (forall n, i :: n in r.data && 0 <= i < f.height ==>
          r.data[n][i] == Convert(n, numeric, date, Before(f, n, i)))
  }

  /** `normalize_clientes`. `numeric` stands for `to_numeric(errors="coerce")
      .fillna(0).astype(float)` and `date` for the `to_datetime` / `today()` /
      `strftime` chain, each applied to one cell. */
  function Normalize(f: Frame, numeric: Cell -> Cell, date: Cell -> Cell): (r: Frame)
    requires WellFormed(f)
    ensures NormalizedFrom(f, r, numeric, date)
  {
    var g := Complete(f);
    assert "status" in g.data && "valor_estm" in g.data && "ultima_interacao" in g.data;
    var g1 := Assign(g, "status", FillNa(g.data["status"], Str("Lead")));
    var g2 := Assign(g1, "valor_estm", Apply(numeric, g1.data["valor_estm"]));
    var g3 := Assign(g2, "ultima_interacao", Apply(date, g2.data["ultima_interacao"]));
    ConversionSteps(g, g1, g2, g3, numeric, date);
    CompletedOrder(f, Without(Expected, f.data.Keys));
    var r := Select(g3, Layout(g3.order));
    NormalizedCells(f, g, r, numeric, date);
    r
  }

  /** The columns after the status fill and the two conversions. */
  function Converted(g: Frame, numeric: Cell -> Cell, date: Cell -> Cell): map<string, seq<Cell>>
    requires "status" in g.data && "valor_estm" in g.data && "ultima_interacao" in g.data
  {
    g.data["status" := FillNa(g.data["status"], Str("Lead"))]
          ["valor_estm" := Apply(numeric, g.data["valor_estm"])]
          ["ultima_interacao" := Apply(date, g.data["ultima_interacao"])]
  }

  lemma ConversionSteps(g: Frame, g1: Frame, g2: Frame, g3: Frame, numeric: Cell -> Cell, date: Cell -> Cell)
    requires WellFormed(g) && "status" in g.data && "valor_estm" in g.data && "ultima_interacao" in g.data
    requires g1 == Assign(g, "status", FillNa(g.data["status"], Str("Lead")))
    requires g2 == Assign(g1, "valor_estm", Apply(numeric, g1.data["valor_estm"]))
    requires g3 == Assign(g2, "ultima_interacao", Apply(date, g2.data["ultima_interacao"]))
    ensures g3.order == g.order && g3.data == Converted(g, numeric, date)
  {
    assert g1.data["valor_estm"] == g.data["valor_estm"];
    assert g2.data["ultima_interacao"] == g.data["ultima_interacao"];
  }

  /** The labels appended are expected ones, so the rest of the layout is
      that of the input. */
  lemma CompletedOrder(f: Frame, added: seq<string>)
    requires forall x :: x in added ==> x in ExpectedSet
    ensures Layout(f.order + added) == Expected + Without(f.order, ExpectedSet)
  {
    WithoutAppend(f.order, added, ExpectedSet);
    WithoutAll(added, ExpectedSet);
  }

  lemma NormalizedCells(f: Frame, g: Frame, r: Frame, numeric: Cell -> Cell, date: Cell -> Cell)
    requires WellFormed(f) && WellFormed(g) && g.height == f.height
    requires WellFormed(r) && r.height == f.height
    requires forall n, i :: n in g.data && 0 <= i < f.height ==> g.data[n][i] == Before(f, n, i)
    requires "status" in g.data && "valor_estm" in g.data && "ultima_interacao" in g.data
    requires forall n :: n in r.data ==> n in g.data && r.data[n] == Converted(g, numeric, date)[n]
    ensures forall n, i :: n in r.data && 0 <= i < f.height ==>
      r.data[n][i] == Convert(n, numeric, date, Before(f, n, i))
  {
  }

  /** A conversion that leaves its own results alone. Both of
      `normalize_clientes`'s are: a float stays that float, and a
      `YYYY-MM-DD` string parses back to the same day. */
  ghost predicate Idempotent(g: Cell -> Cell)
  {
    forall c :: g(g(c)) == g(c)
  }

  lemma ConvertIdempotent(n: string, numeric: Cell -> Cell, date: Cell -> Cell, c: Cell)
    requires Idempotent(numeric) && Idempotent(date)
    ensures Convert(n, numeric, date, Convert(n, numeric, date, c)) == Convert(n, numeric, date, c)
  {
  }

  /** Normalising twice lays the columns out as normalising once: what
      `persist_clientes` writes, `load_clientes` reads back in the same
      column order. */
  lemma NormalizeOrderIdempotent(f: Frame, numeric: Cell -> Cell, date: Cell -> Cell)
    requires WellFormed(f)
    ensures Normalize(Normalize(f, numeric, date), numeric, date).order == Normalize(f, numeric, date).order
  {
    var r := Normalize(f, numeric, date);
    ExpectedFacts();
    FrontDropped(Expected, ExpectedSet, f.order);
  }

  /** With conversions that are idempotent, normalising a normalised table
      changes nothing at all. */
  lemma NormalizeIdempotent(f: Frame, numeric: Cell -> Cell, date: Cell -> Cell)
    requires WellFormed(f) && Idempotent(numeric) && Idempotent(date)
    ensures Normalize(Normalize(f, numeric, date), numeric, date) == Normalize(f, numeric, date)
  {
    var r := Normalize(f, numeric, date);
    NormalizeOrderIdempotent(f, numeric, date);
    NormalizedTwice(f, r, Normalize(r, numeric, date), numeric, date, Expected, ExpectedSet);
  }

  lemma NormalizedTwice(f: Frame, r: Frame, s: Frame, numeric: Cell -> Cell, date: Cell -> Cell,
                        exp: seq<string>, expSet: set<string>)
    requires WellFormed(f) && Idempotent(numeric) && Idempotent(date)
    requires NormalizedBy(f, r, numeric, date, exp, expSet) && NormalizedBy(r, s, numeric, date, exp, expSet)
    requires s.order == r.order
    ensures s == r
  {
    KeysTwice(f, r, s, numeric, date, exp, expSet);
    ColumnsTwice(f, r, s, numeric, date, exp, expSet);
    assert s.data == r.data;
  }

  lemma KeysTwice(f: Frame, r: Frame, s: Frame, numeric: Cell -> Cell, date: Cell -> Cell,
                  exp: seq<string>, expSet: set<string>)
    requires WellFormed(f)
    requires NormalizedBy(f, r, numeric, date, exp, expSet) && NormalizedBy(r, s, numeric, date, exp, expSet)
    ensures s.data.Keys == r.data.Keys
  {
    assert forall n :: n in expSet ==> n in r.data;
  }

  lemma ColumnsTwice(f: Frame, r: Frame, s: Frame, numeric: Cell -> Cell, date: Cell -> Cell,
                     exp: seq<string>, expSet: set<string>)
    requires WellFormed(f) && Idempotent(numeric) && Idempotent(date)
    requires NormalizedBy(f, r, numeric, date, exp, expSet) && NormalizedBy(r, s, numeric, date, exp, expSet)
    ensures forall n :: n in s.data && n in r.data ==> s.data[n] == r.data[n]
  {
    forall n | n in s.data && n in r.data
      ensures s.data[n] == r.data[n]
    {
      assert forall i :: 0 <= i < f.height ==> s.data[n][i] == Convert(n, numeric, date, r.data[n][i]);
      ColumnTwice(n, numeric, date, f, r.data[n], s.data[n]);
    }
  }

  lemma ColumnTwice(n: string, numeric: Cell -> Cell, date: Cell -> Cell, f: Frame, rc: seq<Cell>, sc: seq<Cell>)
    requires WellFormed(f) && Idempotent(numeric) && Idempotent(date)
    requires |rc| == |sc| == f.height
    requires forall i :: 0 <= i < f.height ==> rc[i] == Convert(n, numeric, date, Before(f, n, i))
    requires forall i :: 0 <= i < f.height ==> sc[i] == Convert(n, numeric, date, rc[i])
    ensures sc == rc
  {
    forall i | 0 <= i < f.height
      ensures sc[i] == rc[i]
    {
      ConvertIdempotent(n, numeric, date, Before(f, n, i));
    }
  }

  /** A table read without a `status` column gets one of empty strings, not
      of "Lead": `fillna` only replaces NaN. No row of it counts as a lead. */
  lemma AbsentStatusIsBlank(f: Frame, numeric: Cell -> Cell, date: Cell -> Cell)
    requires WellFormed(f) && "status" !in f.data
    ensures var r := Normalize(f, numeric, date);
      && "status" in r.data
      && (forall i :: 0 <= i < f.height ==> r.data["status"][i] == Str(""))
      && multiset(r.data["status"])[Str("Lead")] == 0
  {
    BlankStatus(f, Normalize(f, numeric, date), numeric, date, Expected, ExpectedSet);
  }

  lemma BlankStatus(f: Frame, r: Frame, numeric: Cell -> Cell, date: Cell -> Cell,
                    exp: seq<string>, expSet: set<string>)
    requires WellFormed(f) && "status" !in f.data && "status" in expSet
    requires NormalizedBy(f, r, numeric, date, exp, expSet)
    ensures "status" in r.data
    ensures forall i :: 0 <= i < f.height ==> r.data["status"][i] == Str("")
    ensures multiset(r.data["status"])[Str("Lead")] == 0
  {
    var cells := r.data["status"];
    forall i | 0 <= i < f.height
      ensures cells[i] == Str("")
    {
      assert Before(f, "status", i) == Str("");
    }
  }

  /** The texts `read_csv` reads as NaN by default (its `na_values`): the
      empty field and the usual spellings of "not available". */
  const NaTexts: set<string> :=
    {"", "#N/A", "#N/A N/A", "#NA", "-1.#IND", "-1.#QNAN", "-NaN", "-nan", "1.#IND", "1.#QNAN",
     "<NA>", "N/A", "NA", "NULL", "NaN", "None", "n/a", "nan", "null"}

  /** A cell that `to_csv` writes as text `read_csv` reads back as NaN. */
  predicate ReadsAsNaN(c: Cell)
  {
    c.Str? && c.s in NaTexts
  }

  /** One cell written by `to_csv` and read back by `read_csv`: NaN is
      written as an empty field, and an empty field or one of the NA texts
      is read back as NaN. */
  function Reread(c: Cell): Cell
  {
    if ReadsAsNaN(c) then Missing else c
  }

  /** `persist_clientes` then `read_csv` of the same file, cell by cell. */
  function Reload(f: Frame): (r: Frame)
    requires WellFormed(f)
    ensures WellFormed(r) && r.order == f.order && r.height == f.height && r.data.Keys == f.data.Keys
    ensures forall n, i :: n in f.data && 0 <= i < f.height && ReadsAsNaN(f.data[n][i]) ==> r.data[n][i] == Missing
    ensures forall n, i :: n in f.data && 0 <= i < f.height && !ReadsAsNaN(f.data[n][i]) ==> r.data[n][i] == f.data[n][i]
  {
    Frame(f.order, map n | n in f.data :: Apply(Reread, f.data[n]), f.height)
  }

  /** Saving a table with a `status` column, reading it back and normalising
      it again: a status that was NaN, blank or one of the NA texts (say
      "N/A" or "null") becomes "Lead", and every other status is kept. */
  lemma StatusReloaded(f: Frame, numeric: Cell -> Cell, date: Cell -> Cell)
    requires WellFormed(f) && "status" in f.data
    ensures var s := Normalize(Reload(f), numeric, date);
      && "status" in s.data
      && (forall i :: 0 <= i < f.height && (f.data["status"][i].Missing? || ReadsAsNaN(f.data["status"][i])) ==>
            s.data["status"][i] == Str("Lead"))
      && (forall i :: 0 <= i < f.height && !f.data["status"][i].Missing? && !ReadsAsNaN(f.data["status"][i]) ==>
            s.data["status"][i] == f.data["status"][i])
  {
    var g := Reload(f);
    ReloadedStatusBy(f, g, Normalize(g, numeric, date), numeric, date, Expected, ExpectedSet);
  }

  lemma ReloadedStatusBy(f: Frame, g: Frame, s: Frame, numeric: Cell -> Cell, date: Cell -> Cell,
                         exp: seq<string>, expSet: set<string>)
    requires WellFormed(f) && "status" in f.data && g == Reload(f)
    requires NormalizedBy(g, s, numeric, date, exp, expSet)
    ensures "status" in s.data
    ensures forall i :: 0 <= i < f.height && (f.data["status"][i].Missing? || ReadsAsNaN(f.data["status"][i])) ==>
      s.data["status"][i] == Str("Lead")
    ensures forall i :: 0 <= i < f.height && !f.data["status"][i].Missing? && !ReadsAsNaN(f.data["status"][i]) ==>
      s.data["status"][i] == f.data["status"][i]
  {
    forall i | 0 <= i < f.height
      ensures Before(g, "status", i) == Reread(f.data["status"][i])
    {
    }
  }

  /** The case of a saved "N/A" status. */
  lemma NotAvailableBecomesLead(f: Frame, numeric: Cell -> Cell, date: Cell -> Cell)
    requires WellFormed(f) && "status" in f.data && f.height > 0 && f.data["status"][0] == Str("N/A")
    ensures Normalize(Reload(f), numeric, date).data["status"][0] == Str("Lead")
  {
    StatusReloaded(f, numeric, date);
  }

  /** A table read without a `status` column is saved with blank statuses;
      reading the file back turns the blanks into NaN, and the next
      normalisation fills them with "Lead". So after one save and load every
      such row is a lead, although none was before. */
  lemma BlankStatusReloaded(f: Frame, numeric: Cell -> Cell, date: Cell -> Cell)
    requires WellFormed(f) && "status" !in f.data
    ensures var s := Normalize(Reload(Normalize(f, numeric, date)), numeric, date);
      && "status" in s.data
      && forall i :: 0 <= i < f.height ==> s.data["status"][i] == Str("Lead")
  {
    var r := Normalize(f, numeric, date);
    var g := Reload(r);
    ReloadedStatus(f, r, g, Normalize(g, numeric, date), numeric, date, Expected, ExpectedSet);
  }

  lemma ReloadedStatus(f: Frame, r: Frame, g: Frame, s: Frame, numeric: Cell -> Cell, date: Cell -> Cell,
                       exp: seq<string>, expSet: set<string>)
    requires WellFormed(f) && "status" !in f.data && "status" in expSet
    requires NormalizedBy(f, r, numeric, date, exp, expSet)
    requires WellFormed(r) && g == Reload(r)
    requires NormalizedBy(g, s, numeric, date, exp, expSet)
    ensures "status" in s.data
    ensures forall i :: 0 <= i < f.height ==> s.data["status"][i] == Str("Lead")
  {
    BlankStatus(f, r, numeric, date, exp, expSet);
    NaNStatusIsLead(g, s, numeric, date, exp, expSet);
  }

  lemma NaNStatusIsLead(g: Frame, s: Frame, numeric: Cell -> Cell, date: Cell -> Cell,
                        exp: seq<string>, expSet: set<string>)
    requires WellFormed(g) && "status" in g.data
    requires forall i :: 0 <= i < g.height ==> g.data["status"][i] == Missing
    requires NormalizedBy(g, s, numeric, date, exp, expSet)
    ensures "status" in s.data
    ensures forall i :: 0 <= i < g.height ==> s.data["status"][i] == Str("Lead")
  {
    forall i | 0 <= i < g.height
      ensures s.data["status"][i] == Str("Lead")
    {
      assert Before(g, "status", i) == Missing;
    }
  }

  /** The counted figures of `calculate_metrics`. */
  datatype Metrics = Metrics(total: nat, leads: nat, prospects: nat, clientes: nat)

  /** Three different values occur at most as often, together, as the
      sequence is long. */
  lemma {:induction false} CountsBounded(s: seq<Cell>, a: Cell, b: Cell, c: Cell)
    requires a != b && b != c && a != c
    ensures multiset(s)[a] + multiset(s)[b] + multiset(s)[c] <= |s|
    decreases |s|
  {
    if |s| > 0 {
      var t := s[..|s| - 1];
      assert s == t + [s[|s| - 1]];
      CountsBounded(t, a, b, c);
    }
  }

  /** The counted part of `calculate_metrics`: the number of rows and, for
      each of the three statuses the dashboard shows, how many rows hold
      exactly it (`value_counts` skips NaN, and a status with no row counts
      0). `None` is the KeyError `df["status"]` raises on a table without a
      status column; the errors of `int()` on an infinite or NaN float sum
      belong to `faturamento`, which is not modelled. */
  method CalculateMetrics(f: Frame) returns (r: Option<Metrics>)
    requires WellFormed(f)
    ensures r.None? <==> "status" !in f.data
    ensures r.Some? ==> r.value.total == f.height
    ensures r.Some? ==> r.value.leads == multiset(f.data["status"])[Str("Lead")]
    ensures r.Some? ==> r.value.prospects == multiset(f.data["status"])[Str("Prospect")]
    ensures r.Some? ==> r.value.clientes == multiset(f.data["status"])[Str("Cliente")]
    ensures r.Some? ==> r.value.leads + r.value.prospects + r.value.clientes <= r.value.total
  {
    if "status" !in f.data {
      return None;
    }
    var cells := f.data["status"];
    var leads, prospects, clientes := 0, 0, 0;
    var i := 0;
    while i < |cells|
      invariant 0 <= i <= |cells|
      invariant leads == multiset(cells[..i])[Str("Lead")]
      invariant prospects == multiset(cells[..i])[Str("Prospect")]
      invariant clientes == multiset(cells[..i])[Str("Cliente")]
    {
      assert cells[..i + 1] == cells[..i] + [cells[i]];
      if cells[i] == Str("Lead") {
        leads := leads + 1;
      } else if cells[i] == Str("Prospect") {
        prospects := prospects + 1;
      } else if cells[i] == Str("Cliente") {
        clientes := clientes + 1;
      }
      i := i + 1;
    }
    assert cells[..i] == cells;
    CountsBounded(cells, Str("Lead"), Str("Prospect"), Str("Cliente"));
    return Some(Metrics(f.height, leads, prospects, clientes));
  }
}
