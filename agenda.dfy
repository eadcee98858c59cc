/** `leer_agenda`: the rows of the day's sheet, header excluded, as typed
    entries addressed by their physical row number. */
module Lectura {
  import opened Text
  import opened Normalize
  import opened Worksheet

  /** Fixed columns of the day sheet. */
  const ColHora := 1
  const ColEstado := 2
  const ColCliente := 3
  const ColTelefono := 4
  const ColServicio := 5
  const ColDuracion := 6
  const ColFlexibilidad := 7
  const ColNotas := 8
  const ColAvisada := 9

  /** One slot of the day, as `leer_agenda` builds it. */
  datatype Entry = Entry(
    rowSheet: int,
    hora: string,
    horaMin: int,
    estado: Estado,
    cliente: string,
    telefono: string,
    servicio: string,
    duracion: int,
    flexibilidad: string,
    avisada: string)

  /** The entry for sheet row `idx` holding the cells `row`. */
  function EntryOfRow(idx: int, row: seq<string>): Entry {
    var hora := At(row, ColHora - 1);
    var servicio := At(row, ColServicio - 1);
    var flex := At(row, ColFlexibilidad - 1);
    Entry(
      idx,
      hora,
      HoraAMinutos(hora),
      NormalizaEstado(At(row, ColEstado - 1)),
      At(row, ColCliente - 1),
      At(row, ColTelefono - 1),
      if servicio != "" then servicio else DefaultServicio,
      DuracionAMinutos(At(row, ColDuracion - 1)),
      if flex == "Si" || flex == "No" then flex else DefaultFlexibilidad,
      At(row, ColAvisada - 1))
  }

  /** The entries of the data rows `values[1..n]`, numbered from 2. */
  function AgendaUpTo(values: Grid, n: nat): seq<Entry>
    requires n <= |values|
  {
    if n < 2 then [] else AgendaUpTo(values, n - 1) + [EntryOfRow(n, values[n - 1])]
  }

  /** The entries of all data rows `values[1..]`. */
  function Agenda(values: Grid): seq<Entry> {
    AgendaUpTo(values, |values|)
  }

  /** `leer_agenda(ws)`. */
  method LeerAgenda(ws: Sheet) returns (filas: seq<Entry>)
    ensures filas == Agenda(ws.rows)
  {
    var values := ws.rows;
    if |values| < 2 {
      return [];
    }
    filas := [];
    var i := 1;
    while i < |values|
      invariant 1 <= i <= |values|
      invariant filas == AgendaUpTo(values, i)
    {
      filas := filas + [EntryOfRow(i + 1, values[i])];
      i := i + 1;
    }
  }

  lemma {:induction false} AgendaUpToLen(values: Grid, n: nat)
    requires n <= |values|
    ensures |AgendaUpTo(values, n)| == if n < 2 then 0 else n - 1
  {
    if n >= 2 {
      AgendaUpToLen(values, n - 1);
    }
  }

  /** Data row `r` of the prefix is at position `r - 2`. */
  lemma {:induction false} AgendaUpToIndex(values: Grid, n: nat, r: int)
    requires n <= |values| && 2 <= r <= n
    ensures |AgendaUpTo(values, n)| == n - 1
    ensures AgendaUpTo(values, n)[r - 2] == EntryOfRow(r, values[r - 1])
  {
    AgendaUpToLen(values, n - 1);
    if r < n {
      AgendaUpToIndex(values, n - 1, r);
    }
  }

  /** The entry `e` is what the cells of its own row say, defaults applied. */
  ghost predicate ReadFromCells(g: Grid, e: Entry) {
    var r := e.rowSheet;
    && e.hora == CellAt(g, r, ColHora)
    && e.horaMin == HoraAMinutos(e.hora)
    && e.estado == NormalizaEstado(CellAt(g, r, ColEstado))
    && e.cliente == CellAt(g, r, ColCliente)
    && e.telefono == CellAt(g, r, ColTelefono)
    && e.servicio == (if CellAt(g, r, ColServicio) == "" then DefaultServicio else CellAt(g, r, ColServicio))
    && e.duracion == DuracionAMinutos(CellAt(g, r, ColDuracion))
    && e.flexibilidad == (if CellAt(g, r, ColFlexibilidad) == "Si" || CellAt(g, r, ColFlexibilidad) == "No"
                          then CellAt(g, r, ColFlexibilidad) else DefaultFlexibilidad)
    && e.avisada == CellAt(g, r, ColAvisada)
  }

  lemma EntryOfRowCells(values: Grid, r: int)
    requires 1 <= r <= |values|
    ensures ReadFromCells(values, EntryOfRow(r, values[r - 1]))
  {
    HoraEstadoLeidos(values, r);
    ClienteLeido(values, r);
    ServicioLeido(values, r);
  }

  lemma HoraEstadoLeidos(values: Grid, r: int)
    requires 1 <= r <= |values|
    ensures var e := EntryOfRow(r, values[r - 1]);
      && e.rowSheet == r
      && e.hora == CellAt(values, r, ColHora)
      && e.horaMin == HoraAMinutos(e.hora)
      && e.estado == NormalizaEstado(CellAt(values, r, ColEstado))
  {
    var e := EntryOfRow(r, values[r - 1]);
    assert e.hora == CellAt(values, r, ColHora);
    assert e.estado == NormalizaEstado(CellAt(values, r, ColEstado));
  }

  lemma ClienteLeido(values: Grid, r: int)
    requires 1 <= r <= |values|
    ensures var e := EntryOfRow(r, values[r - 1]);
      && e.cliente == CellAt(values, r, ColCliente)
      && e.telefono == CellAt(values, r, ColTelefono)
      && e.avisada == CellAt(values, r, ColAvisada)
      && e.duracion == DuracionAMinutos(CellAt(values, r, ColDuracion))
  {
    var e := EntryOfRow(r, values[r - 1]);
    assert e.duracion == DuracionAMinutos(CellAt(values, r, ColDuracion));
  }

  lemma ServicioLeido(values: Grid, r: int)
    requires 1 <= r <= |values|
    ensures var e := EntryOfRow(r, values[r - 1]);
      && e.servicio == (if CellAt(values, r, ColServicio) == "" then DefaultServicio else CellAt(values, r, ColServicio))
      && e.flexibilidad == (if CellAt(values, r, ColFlexibilidad) == "Si" || CellAt(values, r, ColFlexibilidad) == "No"
                            then CellAt(values, r, ColFlexibilidad) else DefaultFlexibilidad)
  {
    var row := values[r - 1];
    assert CellAt(values, r, ColServicio) == At(row, ColServicio - 1);
    assert CellAt(values, r, ColFlexibilidad) == At(row, ColFlexibilidad - 1);
  }

  /** What `leer_agenda` returns: nothing without a data row; otherwise one
      entry per data row, in order, numbered 2, 3, ..., each field read
      from its own column with the defaults applied. */
  lemma AgendaProperties(values: Grid)
    ensures |values| < 2 ==> Agenda(values) == []
    ensures |values| >= 2 ==> |Agenda(values)| == |values| - 1
    ensures forall i :: 0 <= i < |Agenda(values)| ==>
              && Agenda(values)[i].rowSheet == i + 2
              && ReadFromCells(values, Agenda(values)[i])
              && Agenda(values)[i].servicio != ""
              && Agenda(values)[i].flexibilidad in {"Si", "No"}
    ensures forall i, j :: 0 <= i < j < |Agenda(values)| ==> Agenda(values)[i].rowSheet < Agenda(values)[j].rowSheet
  {
    AgendaUpToLen(values, |values|);
    forall i | 0 <= i < |Agenda(values)|
      ensures && Agenda(values)[i].rowSheet == i + 2
              && ReadFromCells(values, Agenda(values)[i])
              && Agenda(values)[i].servicio != ""
              && Agenda(values)[i].flexibilidad in {"Si", "No"}
    {
      EntradaDeFila(values, i + 2);
    }
  }

  /** The entry of the data row `r`. */
  lemma EntradaDeFila(values: Grid, r: int)
    requires 2 <= r <= |values|
    ensures |Agenda(values)| == |values| - 1
    ensures Agenda(values)[r - 2].rowSheet == r && ReadFromCells(values, Agenda(values)[r - 2])
    ensures Agenda(values)[r - 2].servicio != "" && Agenda(values)[r - 2].flexibilidad in {"Si", "No"}
  {
    AgendaEn(values, r);
    EntryOfRowCells(values, r);
  }

  /** The entry of the data row `r` is the one built from its cells. */
  lemma AgendaEn(values: Grid, r: int)
    requires 2 <= r <= |values|
    ensures |Agenda(values)| == |values| - 1
    ensures Agenda(values)[r - 2] == EntryOfRow(r, values[r - 1])
  {
    AgendaUpToIndex(values, |values|, r);
  }

  /** Row numbers increase along the agenda. */
  predicate FilasCrecientes(agenda: seq<Entry>) {
    forall i, j :: 0 <= i < j < |agenda| ==> agenda[i].rowSheet < agenda[j].rowSheet
  }

  /** In an agenda whose rows increase, the row number identifies an entry. */
  lemma FilaUnica(agenda: seq<Entry>, e1: Entry, e2: Entry)
    requires FilasCrecientes(agenda)
    requires e1 in agenda && e2 in agenda && e1.rowSheet == e2.rowSheet
    ensures e1 == e2
  {
    var i :| 0 <= i < |agenda| && agenda[i] == e1;
    var j :| 0 <= j < |agenda| && agenda[j] == e2;
  }

  /** `b` is `a` except perhaps at the positions `i` and `j`. */
  predicate IgualSalvo(a: seq<Entry>, b: seq<Entry>, i: int, j: int) {
    |b| == |a| && forall k :: 0 <= k < |a| && k != i && k != j ==> b[k] == a[k]
  }

  /** An entry depends only on the cells of its own row. */
  lemma AgendaFrame(g: Grid, g': Grid, r: int)
    requires |g| == |g'| && 2 <= r <= |g|
    requires forall c :: CellAt(g', r, c) == CellAt(g, r, c)
    ensures |Agenda(g)| == |g| - 1 == |Agenda(g')|
    ensures Agenda(g')[r - 2] == Agenda(g)[r - 2]
  {
    AgendaEn(g, r);
    AgendaEn(g', r);
    EntryOfRowFrame(g, g', r);
  }

  lemma EntryOfRowFrame(g: Grid, g': Grid, r: int)
    requires 1 <= r <= |g| && r <= |g'|
    requires forall c :: CellAt(g', r, c) == CellAt(g, r, c)
    ensures EntryOfRow(r, g'[r - 1]) == EntryOfRow(r, g[r - 1])
  {
    var a, b := g[r - 1], g'[r - 1];
    forall k ensures At(b, k) == At(a, k) {
      assert CellAt(g', r, k + 1) == CellAt(g, r, k + 1);
    }
  }
}
