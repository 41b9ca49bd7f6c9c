/**
 Header resolution of core/csv_import.py: a CSV file as its header row and
 its data rows (a missing cell is `None`), the `CANON` alias table, the
 `cols` look-up from normalised header to column, and the records
 `parse_csv` builds from each row.

 A column is identified by its position. pandas renames repeated headers
 while reading (`a`, `a.1`), so the header names of a frame are distinct and
 a position and a name identify the same column.
 */
module CsvImport {
  import opened Wrappers
  import opened Text

  /** The canonical keys of `CANON`, in the order `parse_csv` takes them. */
  datatype Field = Protocolo | Nome | Documento | Assunto | Status | Prioridade | DataEvento

  /** `CANON[key]`: the accepted header spellings, most preferred first. */
  function Aliases(f: Field): (a: seq<string>)
    ensures 2 <= |a| && Distinct(a)
  {
    match f
    case Protocolo => ["protocolo", "protocol", "numero", "n_protocolo"]
    case Nome => ["nome", "cidadao", "solicitante", "name"]
    case Documento => ["documento", "cpf", "rg"]
    case Assunto => ["assunto", "tema", "subject", "categoria"]
    case Status => ["status", "situacao"]
    case Prioridade => ["prioridade", "priority"]
    case DataEvento => ["data", "data_evento", "dt", "date"]
  }

  /** No spelling is accepted for two keys, so no header can be claimed twice. */
  lemma AliasesDisjoint(f: Field, g: Field, a: string)
    requires a in Aliases(f) && a in Aliases(g)
    ensures f == g
  {
    match f
    case Protocolo => OnlyProtocolo(g, a);
    case Nome => OnlyNome(g, a);
    case Documento => OnlyDocumento(g, a);
    case Assunto => OnlyAssunto(g, a);
    case Status => OnlyStatus(g, a);
    case Prioridade => OnlyPrioridade(g, a);
    case DataEvento => OnlyDataEvento(g, a);
  }

  lemma OnlyProtocolo(g: Field, a: string)
    requires a in Aliases(Protocolo) && a in Aliases(g)
    ensures g == Protocolo
  {
  }

  lemma OnlyNome(g: Field, a: string)
    requires a in Aliases(Nome) && a in Aliases(g)
    ensures g == Nome
  {
  }

  lemma OnlyDocumento(g: Field, a: string)
    requires a in Aliases(Documento) && a in Aliases(g)
    ensures g == Documento
  {
  }

  lemma OnlyAssunto(g: Field, a: string)
    requires a in Aliases(Assunto) && a in Aliases(g)
    ensures g == Assunto
  {
  }

  lemma OnlyStatus(g: Field, a: string)
    requires a in Aliases(Status) && a in Aliases(g)
    ensures g == Status
  {
  }

  lemma OnlyPrioridade(g: Field, a: string)
    requires a in Aliases(Prioridade) && a in Aliases(g)
    ensures g == Prioridade
  {
  }

  lemma OnlyDataEvento(g: Field, a: string)
    requires a in Aliases(DataEvento) && a in Aliases(g)
    ensures g == DataEvento
  {
  }

  /** `c.strip().lower()`. */
  function Key(h: string): (k: string)
    ensures |k| <= |h|
    ensures Lower(k) == k
    ensures exists i, j :: CoreOf(h, i, j) && k == Lower(h[i..j])
  {
    LowerIdempotent(Strip(h));
    Lower(Strip(h))
  }

  datatype Table = Table(headers: seq<string>, rows: seq<seq<Option<string>>>)

  /** What `pd.read_csv` hands over: distinct header names and one cell per
      header in every row. */
  predicate WellFormed(t: Table)
  {
    Distinct(t.headers) && Rectangular(t.rows, |t.headers|)
  }

  /** The normalised form of every header, in column order. */
  function Keys(hs: seq<string>): (ks: seq<string>)
    ensures |ks| == |hs|
    ensures forall i :: 0 <= i < |hs| ==> ks[i] == Key(hs[i])
  {
    seq(|hs|, i requires 0 <= i < |hs| => Key(hs[i]))
  }

  /** `m` maps every key of `ks` to the last position holding it. */
  predicate LastPositions(ks: seq<string>, m: map<string, nat>)
  {
    && (forall i :: 0 <= i < |ks| ==> ks[i] in m)
    && (forall k :: k in m ==> m[k] < |ks| && ks[m[k]] == k)
    && (forall k, j :: k in m && m[k] < j < |ks| ==> ks[j] != k)
  }

  /** `cols`: every normalised header, mapped to the LAST column carrying it,
      because a later entry of a dict comprehension overwrites an earlier one. */
  function IndexOf(ks: seq<string>): (m: map<string, nat>)
    ensures LastPositions(ks, m)
  {
    if |ks| == 0 then map[]
    else
      var n := |ks| - 1;
      var prev := IndexOf(ks[..n]);
      LastPositionsExtend(ks, prev);
      prev[ks[n] := n]
  }

  lemma LastPositionsExtend(ks: seq<string>, prev: map<string, nat>)
    requires |ks| > 0 && LastPositions(ks[..|ks| - 1], prev)
    ensures LastPositions(ks, prev[ks[|ks| - 1] := |ks| - 1])
  {
    var n := |ks| - 1;
    var m := prev[ks[n] := n];
    forall i | 0 <= i < |ks|
      ensures ks[i] in m
    {
      if i < n {
        assert ks[..n][i] == ks[i];
      }
    }
    forall k | k in m
      ensures m[k] < |ks| && ks[m[k]] == k
    {
      if k != ks[n] {
        assert ks[..n][prev[k]] == k;
      }
    }
    forall k, j | k in m && m[k] < j < |ks|
      ensures ks[j] != k
    {
      if k != ks[n] && j < n {
        assert ks[..n][j] == ks[j];
      }
    }
  }

  /** The position in `aliases` of the first spelling `cols` contains. */
  function FirstPresent(cols: map<string, nat>, aliases: seq<string>): (r: Option<nat>)
    ensures r.None? <==> forall i :: 0 <= i < |aliases| ==> aliases[i] !in cols
    ensures r.Some? ==> r.value < |aliases| && aliases[r.value] in cols
    ensures r.Some? ==> forall j :: 0 <= j < r.value ==> aliases[j] !in cols
  {
    if |aliases| == 0 then None
    else if aliases[0] in cols then Some(0)
    else
      match FirstPresent(cols, aliases[1..])
      case None => None
      case Some(p) => Some(p + 1)
  }

  /** `col_of(key)`: the column `cols` gives for that first spelling. */
  function ColOf(cols: map<string, nat>, aliases: seq<string>): (r: Option<nat>)
    ensures r.None? <==> forall i :: 0 <= i < |aliases| ==> aliases[i] !in cols
    ensures r.Some? ==>
      exists p :: 0 <= p < |aliases| && aliases[p] in cols && r.value == cols[aliases[p]] &&
        (forall j :: 0 <= j < p ==> aliases[j] !in cols)
  {
    match FirstPresent(cols, aliases)
    case None => None
    case Some(p) => Some(cols[aliases[p]])
  }

  /** The column `parse_csv` takes for a field, if any. */
  function Column(t: Table, f: Field): Option<nat>
  {
    ColOf(IndexOf(Keys(t.headers)), Aliases(f))
  }

  /** The column `col_of` picks, described on the normalised headers
      themselves: none when no header normalises to a spelling in `a`;
      otherwise the last header normalising to the most preferred spelling
      that any header normalises to. */
  lemma FirstAliasColumn(ks: seq<string>, a: seq<string>)
    ensures ColOf(IndexOf(ks), a).None? <==> forall i :: 0 <= i < |ks| ==> ks[i] !in a
    ensures ColOf(IndexOf(ks), a).Some? ==>
      var c := ColOf(IndexOf(ks), a).value;
      && c < |ks|
      && ks[c] in a
      && (forall j :: c < j < |ks| ==> ks[j] != ks[c])
      && (forall j, i :: 0 <= j < |a| && 0 <= i < |ks| && ks[i] == a[j] ==> ks[c] in a[..j + 1])
  {
    var m := IndexOf(ks);
    if ColOf(m, a).None? {
      forall i | 0 <= i < |ks|
        ensures ks[i] !in a
      {
        assert ks[i] in m;
      }
    } else {
      var q := FirstPresent(m, a).value;
      var c := m[a[q]];
      forall j, i | 0 <= j < |a| && 0 <= i < |ks| && ks[i] == a[j]
        ensures ks[c] in a[..j + 1]
      {
        assert ks[i] in m;
        assert a[..j + 1][q] == ks[c];
      }
    }
  }

  /** `FirstAliasColumn` for the spellings of one field. */
  lemma ColumnIsFirstAlias(t: Table, f: Field)
    ensures var ks := Keys(t.headers);
      && (Column(t, f).None? <==> forall i :: 0 <= i < |ks| ==> ks[i] !in Aliases(f))
      && (Column(t, f).Some? ==> Column(t, f).value < |ks| && ks[Column(t, f).value] in Aliases(f))
  {
    FirstAliasColumn(Keys(t.headers), Aliases(f));
  }

  /** No column is claimed by two fields. */
  lemma ClaimedByOne(t: Table, f: Field, g: Field)
    requires Column(t, f).Some? && Column(t, f) == Column(t, g)
    ensures f == g
  {
    var c := Column(t, f).value;
    ColumnIsFirstAlias(t, f);
    ColumnIsFirstAlias(t, g);
    AliasesDisjoint(f, g, Key(t.headers[c]));
  }

  /** The header `col_of` returns is never the empty string, so the `if c:`
      of `take` succeeds whenever a column was found. */
  lemma ChosenHeaderNonEmpty(t: Table, f: Field)
    requires Column(t, f).Some?
    ensures |t.headers[Column(t, f).value]| > 0
  {
    ColumnIsFirstAlias(t, f);
    var k := Keys(t.headers)[Column(t, f).value];
    AliasesNonEmpty(f);
    assert |k| > 0;
  }

  lemma AliasesNonEmpty(f: Field)
    ensures forall a :: a in Aliases(f) ==> |a| >= 2
  {
    var a := Aliases(f);
    assert forall i :: 0 <= i < |a| ==> |a[i]| >= 2;
  }

  /** The column each canonical field took, `None` where no header names
      it: the outcome of the seven `take` calls. */
  datatype Resolution = Resolution(
    protocolo: Option<nat>,
    nome: Option<nat>,
    documento: Option<nat>,
    assunto: Option<nat>,
    status: Option<nat>,
    prioridade: Option<nat>,
    dataEvento: Option<nat>)
  {
    function At(f: Field): Option<nat>
    {
      match f
      case Protocolo => protocolo
      case Nome => nome
      case Documento => documento
      case Assunto => assunto
      case Status => status
      case Prioridade => prioridade
      case DataEvento => dataEvento
    }

    /** The column is in `used`: some field took it. */
    predicate Uses(i: nat)
    {
      || protocolo == Some(i) || nome == Some(i) || documento == Some(i) || assunto == Some(i)
      || status == Some(i) || prioridade == Some(i) || dataEvento == Some(i)
    }

    /** Every column taken exists, and no column is taken twice. */
    predicate ValidFor(n: nat)
    {
      && (forall f :: At(f).Some? ==> At(f).value < n)
      && (forall f, g :: At(f).Some? && At(f) == At(g) ==> f == g)
    }
  }

  lemma UsesMeansTaken(res: Resolution, i: nat)
    ensures res.Uses(i) <==> exists f :: res.At(f) == Some(i)
  {
    if res.Uses(i) {
      if res.protocolo == Some(i) { assert res.At(Protocolo) == Some(i); }
      else if res.nome == Some(i) { assert res.At(Nome) == Some(i); }
      else if res.documento == Some(i) { assert res.At(Documento) == Some(i); }
      else if res.assunto == Some(i) { assert res.At(Assunto) == Some(i); }
      else if res.status == Some(i) { assert res.At(Status) == Some(i); }
      else if res.prioridade == Some(i) { assert res.At(Prioridade) == Some(i); }
      else { assert res.At(DataEvento) == Some(i); }
    }
  }

  /** The columns of a table that each field takes. */
  function Resolve(t: Table): (res: Resolution)
    ensures forall f :: res.At(f) == Column(t, f)
    ensures res.ValidFor(|t.headers|)
  {
    var res := Resolution(Column(t, Protocolo), Column(t, Nome), Column(t, Documento), Column(t, Assunto),
                          Column(t, Status), Column(t, Prioridade), Column(t, DataEvento));
    ResolutionFacts(t, res);
    res
  }

  lemma ResolutionFacts(t: Table, res: Resolution)
    requires res == Resolution(Column(t, Protocolo), Column(t, Nome), Column(t, Documento), Column(t, Assunto),
                               Column(t, Status), Column(t, Prioridade), Column(t, DataEvento))
    ensures forall f :: res.At(f) == Column(t, f)
    ensures res.ValidFor(|t.headers|)
  {
    forall f
      ensures res.At(f) == Column(t, f)
    {
      match f
      case Protocolo =>
      case Nome =>
      case Documento =>
      case Assunto =>
      case Status =>
      case Prioridade =>
      case DataEvento =>
    }
    forall f | res.At(f).Some?
      ensures res.At(f).value < |t.headers|
    {
      ColumnIsFirstAlias(t, f);
    }
    forall f, g | res.At(f).Some? && res.At(f) == res.At(g)
      ensures f == g
    {
      ClaimedByOne(t, f, g);
    }
  }

  /** The column is in `used`. */
  predicate Claimed(t: Table, i: nat)
  {
    Resolve(t).Uses(i)
  }

  /** A row's `payload`: the columns no field took, keyed by header. */
  function Payload(hs: seq<string>, res: Resolution, row: seq<Option<string>>): (p: map<string, Option<string>>)
    requires Distinct(hs) && |row| == |hs|
    ensures forall h :: h in p <==> exists i :: 0 <= i < |hs| && !res.Uses(i) && hs[i] == h
    ensures forall i :: 0 <= i < |hs| && !res.Uses(i) ==> hs[i] in p && p[hs[i]] == row[i]
    ensures forall i :: 0 <= i < |hs| && res.Uses(i) ==> hs[i] !in p
  {
    map i | 0 <= i < |hs| && !res.Uses(i) :: hs[i] := row[i]
  }

  /** One row of the frame `parse_csv` returns. A `None` in `status` or
      `prioridade` is the NaN pandas leaves in a cell nothing filled. */
  datatype Record = Record(
    protocolo: Option<string>,
    nome: Option<string>,
    documento: Option<string>,
    assunto: Option<string>,
    status: Option<string>,
    prioridade: Option<string>,
    dataEvento: Option<string>,
    payload: map<string, Option<string>>)

  function Get(r: Record, f: Field): Option<string>
  {
    match f
    case Protocolo => r.protocolo
    case Nome => r.nome
    case Documento => r.documento
    case Assunto => r.assunto
    case Status => r.status
    case Prioridade => r.prioridade
    case DataEvento => r.dataEvento
  }

  /** `take(key)` for one row: the cell of the taken column, or nothing. */
  function Take(res: Resolution, f: Field, row: seq<Option<string>>): Option<string>
    requires res.ValidFor(|row|)
  {
    match res.At(f)
    case None => None
    case Some(c) => row[c]
  }

  /** `fillna(default).astype(str).str.lower()` of the taken column, or the
      default when no column was taken. */
  function Defaulted(res: Resolution, f: Field, row: seq<Option<string>>, default: string): (s: string)
    requires res.ValidFor(|row|)
    ensures Lower(s) == s
  {
    var v := Take(res, f, row).GetOr(default);
    LowerIdempotent(v);
    Lower(v)
  }

  /** The record `parse_csv` builds from one row, defaults applied. */
  function Build(hs: seq<string>, res: Resolution, row: seq<Option<string>>): Record
    requires Distinct(hs) && |row| == |hs| && res.ValidFor(|hs|)
  {
    Record(Take(res, Protocolo, row), Take(res, Nome, row), Take(res, Documento, row), Take(res, Assunto, row),
           Some(Defaulted(res, Status, row, "aberto")), Some(Defaulted(res, Prioridade, row, "media")),
           Take(res, DataEvento, row), Payload(hs, res, row))
  }

  function ParseRow(t: Table, row: seq<Option<string>>): (r: Record)
    requires WellFormed(t) && |row| == |t.headers|
    ensures r.status.Some? && Lower(r.status.value) == r.status.value
    ensures r.prioridade.Some? && Lower(r.prioridade.value) == r.prioridade.value
  {
    Build(t.headers, Resolve(t), row)
  }

  predicate Rectangular(rows: seq<seq<Option<string>>>, n: nat)
  {
    forall r :: r in rows ==> |r| == n
  }

  /** The records of all rows, in order. */
  function Frame(hs: seq<string>, res: Resolution, rows: seq<seq<Option<string>>>): (rs: seq<Record>)
    requires Distinct(hs) && Rectangular(rows, |hs|) && res.ValidFor(|hs|)
    ensures |rs| == |rows|
    ensures forall i :: 0 <= i < |rs| ==> rows[i] in rows && rs[i] == Build(hs, res, rows[i])
  {
    seq(|rows|, i requires 0 <= i < |rows| => assert rows[i] in rows; Build(hs, res, rows[i]))
  }

  /** `parse_csv` with every row defaulted: one record per row, in order,
      each with a lowercase `status` and `prioridade`. */
  function ParseCsv(t: Table): (rs: seq<Record>)
    requires WellFormed(t)
    ensures |rs| == |t.rows|
    ensures forall i :: 0 <= i < |rs| ==> rs[i] == ParseRow(t, t.rows[i])
  {
    Frame(t.headers, Resolve(t), t.rows)
  }

  lemma DefaultsAreLower()
    ensures Lower("aberto") == "aberto" && Lower("media") == "media"
  {
    assert forall i :: 0 <= i < |"aberto"| ==> !IsAsciiUpper("aberto"[i]);
    assert forall i :: 0 <= i < |"media"| ==> !IsAsciiUpper("media"[i]);
  }

  /** A defaulted field: a missing cell, or a missing column, gives the
      default; any other value is lowercased. */
  lemma DefaultedOf(res: Resolution, f: Field, row: seq<Option<string>>, default: string)
    requires res.ValidFor(|row|) && Lower(default) == default
    ensures res.At(f).None? ==> Defaulted(res, f, row, default) == default
    ensures res.At(f).Some? ==>
      var c := res.At(f).value;
      c < |row| &&
      Defaulted(res, f, row, default) == if row[c].None? then default else Lower(row[c].value)
  {
  }

  /** `status`: "aberto" for a missing cell or column, otherwise the cell
      lowercased. */
  lemma StatusDefault(t: Table, row: seq<Option<string>>)
    requires WellFormed(t) && |row| == |t.headers|
    ensures Column(t, Status).None? ==> ParseRow(t, row).status == Some("aberto")
    ensures Column(t, Status).Some? ==>
      var c := Column(t, Status).value;
      c < |row| &&
      ParseRow(t, row).status == Some(if row[c].None? then "aberto" else Lower(row[c].value))
  {
    DefaultsAreLower();
    assert Resolve(t).At(Status) == Column(t, Status);
    DefaultedOf(Resolve(t), Status, row, "aberto");
  }

  /** `prioridade`: "media" for a missing cell or column, otherwise the cell
      lowercased. */
  lemma PriorityDefault(t: Table, row: seq<Option<string>>)
    requires WellFormed(t) && |row| == |t.headers|
    ensures Column(t, Prioridade).None? ==> ParseRow(t, row).prioridade == Some("media")
    ensures Column(t, Prioridade).Some? ==>
      var c := Column(t, Prioridade).value;
      c < |row| &&
      ParseRow(t, row).prioridade == Some(if row[c].None? then "media" else Lower(row[c].value))
  {
    DefaultsAreLower();
    assert Resolve(t).At(Prioridade) == Column(t, Prioridade);
    DefaultedOf(Resolve(t), Prioridade, row, "media");
  }

  /** The other fields copy the taken column's cell, and are missing when
      no header names them. */
  lemma CopiedFields(t: Table, row: seq<Option<string>>, f: Field)
    requires WellFormed(t) && |row| == |t.headers|
    requires f != Status && f != Prioridade
    ensures Column(t, f).None? ==> Get(ParseRow(t, row), f).None?
    ensures Column(t, f).Some? ==>
      Column(t, f).value < |row| && Get(ParseRow(t, row), f) == row[Column(t, f).value]
  {
    ColumnIsFirstAlias(t, f);
    var res := Resolve(t);
    assert res.At(f) == Column(t, f);
    assert Get(ParseRow(t, row), f) == Take(res, f, row);
  }

  /** The payload holds exactly the columns no field took, under their
      headers. */
  lemma PayloadExact(t: Table, row: seq<Option<string>>)
    requires WellFormed(t) && |row| == |t.headers|
    ensures var p := ParseRow(t, row).payload;
      && (forall h :: h in p <==> exists i :: 0 <= i < |t.headers| && !Claimed(t, i) && t.headers[i] == h)
      && (forall i :: 0 <= i < |t.headers| && !Claimed(t, i) ==> p[t.headers[i]] == row[i])
  {
  }

  /** Every cell of a row lands in exactly one place: the one field that
      took its column, or the payload under its header. */
  lemma RowPartition(t: Table, row: seq<Option<string>>, i: nat)
    requires WellFormed(t) && |row| == |t.headers| && i < |row|
    ensures var p := ParseRow(t, row).payload;
      || (!Claimed(t, i) && t.headers[i] in p && p[t.headers[i]] == row[i])
      || (t.headers[i] !in p &&
          exists f :: Column(t, f) == Some(i) && forall g :: Column(t, g) == Some(i) ==> g == f)
  {
    var res := Resolve(t);
    UsesMeansTaken(res, i);
    if res.Uses(i) {
      var f :| res.At(f) == Some(i);
      assert Column(t, f) == Some(i);
      forall g | Column(t, g) == Some(i)
        ensures g == f
      {
        assert res.At(g) == Some(i);
      }
    }
  }

  // ---------------------------------------------------------------------
  // `parse_csv` as written: the frame `out` starts with no rows and no index.

  datatype CsvError = LengthMismatch

  /** Whether one of the columns assigned before `f` in `out` was a Series.
      The first Series assigned to the empty `out` gives it the rows of the
      input; a scalar assigned before that fills zero rows, and the column
      is padded with NaN once the rows arrive. */
  predicate IndexedBefore(res: Resolution, f: Field)
  {
    || res.protocolo.Some? || res.nome.Some? || res.documento.Some? || res.assunto.Some?
    || (f == Prioridade && res.status.Some?)
  }

  function AsWrittenRow(hs: seq<string>, res: Resolution, row: seq<Option<string>>): (r: Record)
    requires Distinct(hs) && |row| == |hs| && res.ValidFor(|hs|)
    ensures r.status.None? <==>
      res.status.None? && res.protocolo.None? && res.nome.None? && res.documento.None? && res.assunto.None?
    ensures r.prioridade.None? <==>
      res.prioridade.None? && res.status.None? &&
      res.protocolo.None? && res.nome.None? && res.documento.None? && res.assunto.None?
    ensures r.status.Some? ==> r.status == Build(hs, res, row).status
    ensures r.prioridade.Some? ==> r.prioridade == Build(hs, res, row).prioridade
    ensures r.(status := None, prioridade := None) == Build(hs, res, row).(status := None, prioridade := None)
  {
    var r := Build(hs, res, row);
    r.(status := if res.status.None? && !IndexedBefore(res, Status) then None else r.status,
       prioridade := if res.prioridade.None? && !IndexedBefore(res, Prioridade) then None else r.prioridade)
  }

  predicate UsesAll(res: Resolution, n: nat)
  {
    forall i :: 0 <= i < n ==> res.Uses(i)
  }

  /** The frame as written. When every column is taken, `extra` has no
      columns and `to_dict(orient="records")` of it is an empty list, which
      pandas refuses to assign to a frame with rows. */
  function AsWrittenFrame(hs: seq<string>, res: Resolution, rows: seq<seq<Option<string>>>)
    : (r: Result<seq<Record>, CsvError>)
    requires Distinct(hs) && Rectangular(rows, |hs|) && res.ValidFor(|hs|)
    ensures r.Failure? <==> |rows| > 0 && UsesAll(res, |hs|)
    ensures r.Success? ==> |r.value| == |rows|
    ensures r.Success? ==> forall i :: 0 <= i < |rows| ==> rows[i] in rows && r.value[i] == AsWrittenRow(hs, res, rows[i])
  {
    if |rows| > 0 && UsesAll(res, |hs|) then Failure(LengthMismatch)
    else Success(seq(|rows|, i requires 0 <= i < |rows| => assert rows[i] in rows; AsWrittenRow(hs, res, rows[i])))
  }

  /** Every column of the table is in `used`. */
  predicate AllClaimed(t: Table)
  {
    UsesAll(Resolve(t), |t.headers|)
  }

  /** `parse_csv` as written. */
  function ParseCsvAsWritten(t: Table): (r: Result<seq<Record>, CsvError>)
    requires WellFormed(t)
    ensures r.Failure? <==> |t.rows| > 0 && AllClaimed(t)
    ensures r.Success? ==> |r.value| == |t.rows|
  {
    AsWrittenFrame(t.headers, Resolve(t), t.rows)
  }

  /** Once a leading column gave `out` its rows and some column is left for
      the payload, the frame as written is the corrected one. */
  lemma AsWrittenFrameAgrees(hs: seq<string>, res: Resolution, rows: seq<seq<Option<string>>>)
    requires Distinct(hs) && Rectangular(rows, |hs|) && res.ValidFor(|hs|)
    requires IndexedBefore(res, Status)
    requires exists i :: 0 <= i < |hs| && !res.Uses(i)
    ensures AsWrittenFrame(hs, res, rows) == Success(Frame(hs, res, rows))
  {
    var r := AsWrittenFrame(hs, res, rows);
    assert r.Success?;
    var rs := Frame(hs, res, rows);
    assert forall i :: 0 <= i < |rs| ==> r.value[i] == rs[i] by {
      forall i | 0 <= i < |rs|
        ensures r.value[i] == rs[i]
      {
        var b := Build(hs, res, rows[i]);
        assert b.(status := b.status, prioridade := b.prioridade) == b;
      }
    }
    assert |r.value| == |rs|;
    assert r.value == rs;
  }

  /** Whenever a protocol, name, document or subject column exists and some
      column is left over for the payload, the code as written and the
      corrected model agree. */
  lemma AsWrittenAgrees(t: Table)
    requires WellFormed(t)
    requires Column(t, Protocolo).Some? || Column(t, Nome).Some? ||
             Column(t, Documento).Some? || Column(t, Assunto).Some?
    requires exists i :: 0 <= i < |t.headers| && !Claimed(t, i)
    ensures ParseCsvAsWritten(t) == Success(ParseCsv(t))
  {
    var res := Resolve(t);
    assert IndexedBefore(res, Status) by {
      assert res.At(Protocolo) == Column(t, Protocolo);
      assert res.At(Nome) == Column(t, Nome);
      assert res.At(Documento) == Column(t, Documento);
      assert res.At(Assunto) == Column(t, Assunto);
    }
    AsWrittenFrameAgrees(t.headers, res, t.rows);
  }

  /** A file whose only column, `x`, matches no alias, with one data row. */
  predicate IsUnknown(t: Table)
  {
    t.headers == ["x"] && t.rows == [[Some("1")]]
  }

  lemma UnknownHasNoFields(t: Table, f: Field)
    requires IsUnknown(t)
    ensures Column(t, f).None?
  {
    PlainKey("x");
    KeysOfPlain(t.headers, "x");
    NoAliasForX(t, f);
  }

  lemma KeysOfPlain(hs: seq<string>, h: string)
    requires hs == [h] && Key(h) == h
    ensures Keys(hs) == [h]
  {
  }

  lemma NoAliasForX(t: Table, f: Field)
    requires Keys(t.headers) == ["x"]
    ensures Column(t, f).None?
  {
    ColumnFromKeys(t, ["x"], f);
    assert ColOf(IndexOf(["x"]), Aliases(f)).None? by {
      FirstAliasColumn(["x"], Aliases(f));
      assert "x" !in Aliases(f) by {
        AliasesNonEmpty(f);
      }
    }
  }

  lemma ColumnFromKeys(t: Table, ks: seq<string>, f: Field)
    requires Keys(t.headers) == ks
    ensures Column(t, f) == ColOf(IndexOf(ks), Aliases(f))
  {
  }

  /** A header without surrounding space or capitals is its own key. */
  lemma PlainKey(h: string)
    requires |h| > 0 && !IsSpace(h[0]) && !IsSpace(h[|h| - 1])
    requires forall i :: 0 <= i < |h| ==> !IsAsciiUpper(h[i])
    ensures Key(h) == h
  {
  }

  lemma UnknownResolvesNothing(t: Table)
    requires IsUnknown(t)
    ensures WellFormed(t)
    ensures Resolve(t) == Resolution(None, None, None, None, None, None, None)
  {
    forall f
      ensures Column(t, f).None?
    {
      UnknownHasNoFields(t, f);
    }
    NoneResolved(t);
  }

  lemma NoneResolved(t: Table)
    requires forall f :: Column(t, f).None?
    ensures Resolve(t) == Resolution(None, None, None, None, None, None, None)
  {
    var res := Resolve(t);
    assert forall f :: res.At(f).None?;
    assert res.protocolo == res.At(Protocolo) && res.nome == res.At(Nome);
  }

  /** As written, the `status` and `prioridade` defaults are lost: the
      record carries NaN where "aberto" and "media" were meant. */
  lemma DefaultsLost(t: Table)
    requires IsUnknown(t)
    ensures WellFormed(t)
    ensures ParseCsvAsWritten(t).Success?
    ensures ParseCsvAsWritten(t).value[0].status.None?
    ensures ParseCsvAsWritten(t).value[0].prioridade.None?
    ensures ParseCsv(t)[0].status == Some("aberto")
    ensures ParseCsv(t)[0].prioridade == Some("media")
  {
    UnknownResolvesNothing(t);
    NothingTaken(t.headers, t.rows);
  }

  lemma NothingTaken(hs: seq<string>, rows: seq<seq<Option<string>>>)
    requires hs == ["x"] && rows == [[Some("1")]]
    ensures var res := Resolution(None, None, None, None, None, None, None);
      && Distinct(hs) && Rectangular(rows, |hs|) && res.ValidFor(|hs|)
      && AsWrittenFrame(hs, res, rows).Success?
      && AsWrittenFrame(hs, res, rows).value[0].status.None?
      && AsWrittenFrame(hs, res, rows).value[0].prioridade.None?
      && Frame(hs, res, rows)[0].status == Some("aberto")
      && Frame(hs, res, rows)[0].prioridade == Some("media")
  {
    var res := Resolution(None, None, None, None, None, None, None);
    assert !res.Uses(0);
    DefaultsAreLower();
  }

  /** A file whose only column is a protocol column, with one data row. */
  predicate IsOnlyProtocol(t: Table)
  {
    t.headers == ["protocolo"] && t.rows == [[Some("1")]]
  }

  lemma OnlyProtocolResolves(t: Table)
    requires IsOnlyProtocol(t)
    ensures WellFormed(t)
    ensures Resolve(t) == Resolution(Some(0), None, None, None, None, None, None)
  {
    PlainKey("protocolo");
    KeysOfPlain(t.headers, "protocolo");
    ProtocolColumns(t);
  }

  lemma ProtocolColumns(t: Table)
    requires Keys(t.headers) == ["protocolo"]
    ensures Resolve(t) == Resolution(Some(0), None, None, None, None, None, None)
  {
    var res := Resolve(t);
    assert res.At(Protocolo) == Some(0) by {
      ColumnFromKeys(t, ["protocolo"], Protocolo);
      assert IndexOf(["protocolo"]) == map["protocolo" := 0];
    }
    forall f | f != Protocolo
      ensures res.At(f).None?
    {
      ColumnFromKeys(t, ["protocolo"], f);
      ProtocoloOnlyForProtocol(f);
    }
    assert res.At(Nome).None? && res.At(Documento).None? && res.At(Assunto).None?;
    assert res.At(Status).None? && res.At(Prioridade).None? && res.At(DataEvento).None?;
  }

  lemma ProtocoloOnlyForProtocol(f: Field)
    requires f != Protocolo
    ensures ColOf(IndexOf(["protocolo"]), Aliases(f)).None?
  {
    FirstAliasColumn(["protocolo"], Aliases(f));
    assert "protocolo" !in Aliases(f) by {
      if "protocolo" in Aliases(f) {
        AliasesDisjoint(Protocolo, f, "protocolo");
      }
    }
  }

  /** As written, the file is refused; corrected, its record has an empty
      payload. */
  lemma EverythingClaimed(t: Table)
    requires IsOnlyProtocol(t)
    ensures WellFormed(t)
    ensures ParseCsvAsWritten(t).Failure?
    ensures ParseCsv(t)[0].payload == map[]
    ensures ParseCsv(t)[0].protocolo == Some("1")
  {
    OnlyProtocolResolves(t);
    ProtocolTaken(t.headers, t.rows);
  }

  lemma ProtocolTaken(hs: seq<string>, rows: seq<seq<Option<string>>>)
    requires hs == ["protocolo"] && rows == [[Some("1")]]
    ensures var res := Resolution(Some(0), None, None, None, None, None, None);
      && Distinct(hs) && Rectangular(rows, |hs|) && res.ValidFor(|hs|)
      && AsWrittenFrame(hs, res, rows).Failure?
      && Frame(hs, res, rows)[0].payload == map[]
      && Frame(hs, res, rows)[0].protocolo == Some("1")
  {
    var res := Resolution(Some(0), None, None, None, None, None, None);
    assert res.Uses(0);
    assert UsesAll(res, 1);
  }
}
