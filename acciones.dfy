/** The business actions that write into the day sheet: each one is a fixed
    sequence of `update_cell` calls, preceded by the reads and checks that
    may stop it. A row or column below 1 is refused by gspread before any
    write; every other failure is a `ValueError` of the action itself. */
module Acciones {
  import opened Text
  import opened Normalize
  import opened Lectura
  import opened Worksheet
  import opened Sugerencias

  /** Why an action stopped. */
  datatype Fallo =
    | FilaInvalida(fila: int)   // gspread: a row number below 1
    | DestinoNoLibre            // "La fila destino no está libre"
    | MoverHueco                // "No se puede mover un hueco"
    | HoraInvalida              // "Hora inválida"

  datatype Resultado = Hecho | Fallido(fallo: Fallo)

  /** Python's `v or d` on a cell text. */
  function OrDefault(v: string, d: string): string {
    if v != "" then v else d
  }

  // ---------------------------------------------------------------------
  // Effect of writes on the agenda
  // ---------------------------------------------------------------------

  /** Writing only into the data row `r` of a sheet leaves every other
      entry as it was. */
  lemma AgendaTrasEscribir(g: Grid, g': Grid, r: int)
    requires 2 <= r <= |g| && |g'| == |g|
    requires forall r', c :: r' != r ==> CellAt(g', r', c) == CellAt(g, r', c)
    ensures |Agenda(g)| == |g| - 1 == |Agenda(g')|
    ensures IgualSalvo(Agenda(g), Agenda(g'), r - 2, r - 2)
  {
    AgendaUpToLen(g, |g|);
    AgendaUpToLen(g', |g'|);
    forall i | 0 <= i < |Agenda(g)| && i != r - 2
      ensures Agenda(g')[i] == Agenda(g)[i]
    {
      AgendaFrame(g, g', i + 2);
    }
  }

  // ---------------------------------------------------------------------
  // cambiar_estado
  // ---------------------------------------------------------------------

  /** `cambiar_estado(ws, row_sheet, estado)`: the normalised status into
      column B. */
  method CambiarEstado(ws: Sheet, rowSheet: int, estado: string) returns (res: Resultado)
    modifies ws
    ensures rowSheet < 1 ==> res == Fallido(FilaInvalida(rowSheet)) && ws.rows == old(ws.rows)
    ensures rowSheet >= 1 ==>
      && res == Hecho
      && ws.rows == SetCell(old(ws.rows), rowSheet, ColEstado, EstadoText(NormalizaEstado(estado)))
  {
    if rowSheet < 1 {
      return Fallido(FilaInvalida(rowSheet));
    }
    var estadoNorm := NormalizaEstado(estado);
    ws.UpdateCell(rowSheet, ColEstado, EstadoText(estadoNorm));
    res := Hecho;
  }

  /** The entry of the row takes the normalised status; nothing else in the
      agenda changes. */
  lemma CambiarEstadoEfecto(g: Grid, r: int, estado: string)
    requires 2 <= r <= |g|
    ensures var g' := SetCell(g, r, ColEstado, EstadoText(NormalizaEstado(estado)));
      && |Agenda(g')| == |Agenda(g)| == |g| - 1
      && Agenda(g')[r - 2] == Agenda(g)[r - 2].(estado := NormalizaEstado(estado))
      && IgualSalvo(Agenda(g), Agenda(g'), r - 2, r - 2)
  {
    var g' := SetCell(g, r, ColEstado, EstadoText(NormalizaEstado(estado)));
    AgendaTrasEscribir(g, g', r);
    EntradaDeFila(g, r);
    EntradaDeFila(g', r);
    NormalizaEstadoText(NormalizaEstado(estado));
  }

  // ---------------------------------------------------------------------
  // crear_cita
  // ---------------------------------------------------------------------

  function ServicioCita(servicio: string): string {
    OrDefault(servicio, DefaultServicio)
  }

  /** `int(duracion) if duracion not in (None, "") else DEFAULT_DURACION_MIN`. */
  function DuracionCita(duracion: Option<int>): int {
    match duracion
    case None => DefaultDuracionMin
    case Some(n) => n
  }

  function FlexibilidadCita(flexibilidad: Option<string>): string {
    if flexibilidad == Some("Si") || flexibilidad == Some("No") then flexibilidad.value
    else DefaultFlexibilidad
  }

  /** The grid after a successful `crear_cita`: column B becomes
      "confirmada" only when the row was free; C..G take the data. Only
      columns B..G of the row are written: its time, notes and warned flag
      and every other row keep their cells. */
  function CrearCitaHoja(g: Grid, r: int, cliente: string, telefono: string, servicio: string,
                         duracion: Option<int>, flexibilidad: Option<string>): (g': Grid)
    requires r >= 1
    ensures forall r', c :: r' != r || c < ColEstado || c > ColFlexibilidad ==> CellAt(g', r', c) == CellAt(g, r', c)
    ensures CellAt(g', r, ColEstado)
            == if NormalizaEstado(CellAt(g, r, ColEstado)) == Hueco then EstadoText(Confirmada) else CellAt(g, r, ColEstado)
    ensures && CellAt(g', r, ColCliente) == cliente && CellAt(g', r, ColTelefono) == telefono
            && CellAt(g', r, ColServicio) == ServicioCita(servicio)
            && CellAt(g', r, ColDuracion) == IntToString(DuracionCita(duracion))
            && CellAt(g', r, ColFlexibilidad) == FlexibilidadCita(flexibilidad)
  {
    var g1 := if NormalizaEstado(CellAt(g, r, ColEstado)) == Hueco
              then SetCell(g, r, ColEstado, EstadoText(Confirmada)) else g;
    SetCell(SetCell(SetCell(SetCell(SetCell(g1,
      r, ColCliente, cliente),
      r, ColTelefono, telefono),
      r, ColServicio, ServicioCita(servicio)),
      r, ColDuracion, IntToString(DuracionCita(duracion))),
      r, ColFlexibilidad, FlexibilidadCita(flexibilidad))
  }


  /** `crear_cita(ws, row_sheet, cliente, telefono, servicio, duracion, flexibilidad)`;
      `None` stands for an argument left out. */
  method CrearCita(ws: Sheet, rowSheet: int, cliente: string, telefono: string, servicio: string,
                   duracion: Option<int>, flexibilidad: Option<string>) returns (res: Resultado)
    modifies ws
    ensures rowSheet < 1 ==> res == Fallido(FilaInvalida(rowSheet)) && ws.rows == old(ws.rows)
    ensures rowSheet >= 1 ==>
      && res == Hecho
      && ws.rows == CrearCitaHoja(old(ws.rows), rowSheet, cliente, telefono, servicio, duracion, flexibilidad)
  {
    var servicio' := if servicio != "" then servicio else DefaultServicio;
    var duracion' := if duracion.Some? then duracion.value else DefaultDuracionMin;
    var flexibilidad' := if flexibilidad == Some("Si") || flexibilidad == Some("No") then flexibilidad.value
                         else DefaultFlexibilidad;
    if rowSheet < 1 {
      return Fallido(FilaInvalida(rowSheet));
    }
    var estadoActual := NormalizaEstado(ws.Cell(rowSheet, ColEstado));
    if estadoActual == Hueco {
      ws.UpdateCell(rowSheet, ColEstado, EstadoText(Confirmada));
    }
    ws.UpdateCell(rowSheet, ColCliente, cliente);
    ws.UpdateCell(rowSheet, ColTelefono, telefono);
    ws.UpdateCell(rowSheet, ColServicio, servicio');
    ws.UpdateCell(rowSheet, ColDuracion, IntToString(duracion'));
    ws.UpdateCell(rowSheet, ColFlexibilidad, flexibilidad');
    res := Hecho;
  }

  /** The entry of the row: a free slot becomes confirmed, a confirmed or
      cancelled one keeps its status; client, phone and the defaulted
      service, duration and flexibility are the ones given; the time and
      the warned flag are kept; nothing else in the agenda changes. */
  lemma CrearCitaEfecto(g: Grid, r: int, cliente: string, telefono: string, servicio: string,
                        duracion: Option<int>, flexibilidad: Option<string>)
    requires 2 <= r <= |g|
    ensures |Agenda(g)| == |g| - 1 == |Agenda(CrearCitaHoja(g, r, cliente, telefono, servicio, duracion, flexibilidad))|
    ensures var g' := CrearCitaHoja(g, r, cliente, telefono, servicio, duracion, flexibilidad);
      var e := Agenda(g)[r - 2];
      && Agenda(g')[r - 2] == e.(estado := if e.estado == Hueco then Confirmada else e.estado,
                                 cliente := cliente, telefono := telefono,
                                 servicio := ServicioCita(servicio),
                                 duracion := DuracionCita(duracion),
                                 flexibilidad := FlexibilidadCita(flexibilidad))
      && IgualSalvo(Agenda(g), Agenda(g'), r - 2, r - 2)
  {
    var g' := CrearCitaHoja(g, r, cliente, telefono, servicio, duracion, flexibilidad);
    AgendaTrasEscribir(g, g', r);
    EntradaDeFila(g, r);
    EntradaDeFila(g', r);
    NormalizaEstadoText(Confirmada);
    DuracionRoundTrip(DuracionCita(duracion));
  }

  // ---------------------------------------------------------------------
  // cambiar_avisada
  // ---------------------------------------------------------------------

  function AvisadaValor(avisada: string): string {
    if avisada == "Si" || avisada == "No" then avisada else "No"
  }

  /** `cambiar_avisada(ws, row_sheet, avisada)`: "Si" or "No" into column I,
      anything else as "No". */
  method CambiarAvisada(ws: Sheet, rowSheet: int, avisada: string) returns (res: Resultado)
    modifies ws
    ensures rowSheet < 1 ==> res == Fallido(FilaInvalida(rowSheet)) && ws.rows == old(ws.rows)
    ensures rowSheet >= 1 ==>
      && res == Hecho
      && ws.rows == SetCell(old(ws.rows), rowSheet, ColAvisada, AvisadaValor(avisada))
  {
    var valor := if avisada == "Si" || avisada == "No" then avisada else "No";
    if rowSheet < 1 {
      return Fallido(FilaInvalida(rowSheet));
    }
    ws.UpdateCell(rowSheet, ColAvisada, valor);
    res := Hecho;
  }

  /** The entry of the row is marked "Si" or "No" as asked; nothing else
      in the agenda changes. */
  lemma CambiarAvisadaEfecto(g: Grid, r: int, avisada: string)
    requires 2 <= r <= |g|
    ensures var g' := SetCell(g, r, ColAvisada, AvisadaValor(avisada));
      && |Agenda(g')| == |Agenda(g)| == |g| - 1
      && Agenda(g')[r - 2] == Agenda(g)[r - 2].(avisada := AvisadaValor(avisada))
      && Agenda(g')[r - 2].avisada in {"Si", "No"}
      && IgualSalvo(Agenda(g), Agenda(g'), r - 2, r - 2)
  {
    var g' := SetCell(g, r, ColAvisada, AvisadaValor(avisada));
    AgendaTrasEscribir(g, g', r);
    EntradaDeFila(g, r);
    EntradaDeFila(g', r);
  }

  // ---------------------------------------------------------------------
  // mover_cita
  // ---------------------------------------------------------------------

  /** Why `mover_cita` stops, in the order `mover_cita` checks: the
      destination row is read first, then the origin row. */
  function MoverCitaFallo(g: Grid, origen: int, destino: int): Option<Fallo> {
    if destino < 1 then Some(FilaInvalida(destino))
    else if NormalizaEstado(CellAt(g, destino, ColEstado)) != Hueco then Some(DestinoNoLibre)
    else if origen < 1 then Some(FilaInvalida(origen))
    else if NormalizaEstado(CellAt(g, origen, ColEstado)) == Hueco then Some(MoverHueco)
    else None
  }

  /** What `mover_cita` writes into one row: columns B..G and I. */
  datatype Datos = Datos(estado: string, cliente: string, telefono: string, servicio: string,
                         duracion: string, flexibilidad: string, avisada: string)

  /** The cells copied to the destination, with their defaults applied. */
  function MoverCitaDatos(g: Grid, origen: int): Datos {
    Datos(EstadoText(Confirmada),
          CellAt(g, origen, ColCliente),
          CellAt(g, origen, ColTelefono),
          OrDefault(CellAt(g, origen, ColServicio), DefaultServicio),
          OrDefault(CellAt(g, origen, ColDuracion), IntToString(DefaultDuracionMin)),
          OrDefault(CellAt(g, origen, ColFlexibilidad), DefaultFlexibilidad),
          OrDefault(CellAt(g, origen, ColAvisada), "No"))
  }

  /** The cells written into the origin to leave it free. */
  function DatosLimpios(): Datos {
    Datos(EstadoText(Hueco), "", "", DefaultServicio, IntToString(DefaultDuracionMin), DefaultFlexibilidad, "No")
  }

  /** The cells of row `r` that `mover_cita` reads and writes. */
  function DatosDeFila(g: Grid, r: int): Datos {
    Datos(CellAt(g, r, ColEstado), CellAt(g, r, ColCliente), CellAt(g, r, ColTelefono),
          CellAt(g, r, ColServicio), CellAt(g, r, ColDuracion), CellAt(g, r, ColFlexibilidad),
          CellAt(g, r, ColAvisada))
  }

  /** The seven writes into row `r`, in the order `mover_cita` makes them; the
      hour (A) and notes (H) columns and every other row are untouched. */
  function EscribirFila(g: Grid, r: int, d: Datos): (g': Grid)
    requires r >= 1
    ensures |g'| == if |g| >= r then |g| else r
    ensures DatosDeFila(g', r) == d
    ensures forall r', c :: r' != r || c == ColHora || c == ColNotas || c < 1 || c > ColAvisada ==>
              CellAt(g', r', c) == CellAt(g, r', c)
  {
    SetCell(SetCell(SetCell(SetCell(SetCell(SetCell(SetCell(g,
      r, ColEstado, d.estado),
      r, ColCliente, d.cliente),
      r, ColTelefono, d.telefono),
      r, ColServicio, d.servicio),
      r, ColDuracion, d.duracion),
      r, ColFlexibilidad, d.flexibilidad),
      r, ColAvisada, d.avisada)
  }

  /** The defaults `mover_cita` applies to the copied cells are the ones
      `leer_agenda` would apply to the original cells. */
  lemma DefaultsCopiados(v5: string, v6: string, v7: string)
    ensures OrDefault(v5, DefaultServicio) != ""
    ensures DuracionAMinutos(OrDefault(v6, IntToString(DefaultDuracionMin))) == DuracionAMinutos(v6)
    ensures var w := OrDefault(v7, DefaultFlexibilidad);
      (if w == "Si" || w == "No" then w else DefaultFlexibilidad)
      == (if v7 == "Si" || v7 == "No" then v7 else DefaultFlexibilidad)
  {
    DuracionRoundTrip(DefaultDuracionMin);
  }

  /** The grid after a successful `mover_cita`: first the destination,
      then the origin. Only the two rows are written, and in both the time
      (A) and the notes (H) stay where they were; on two different rows
      the destination ends with the copied cells and the origin with the
      cleared ones. */
  function MoverCitaHoja(g: Grid, origen: int, destino: int): (g': Grid)
    requires origen >= 1 && destino >= 1
    ensures forall r, c :: (r != origen && r != destino) || c == ColHora || c == ColNotas || c < 1 || c > ColAvisada ==>
              CellAt(g', r, c) == CellAt(g, r, c)
    ensures origen != destino ==>
              DatosDeFila(g', destino) == MoverCitaDatos(g, origen) && DatosDeFila(g', origen) == DatosLimpios()
  {
    EscribirFila(EscribirFila(g, destino, MoverCitaDatos(g, origen)), origen, DatosLimpios())
  }

  /** `mover_cita(ws, row_origen, row_destino)`. */
  method MoverCita(ws: Sheet, origen: int, destino: int) returns (res: Resultado)
    modifies ws
    ensures MoverCitaFallo(old(ws.rows), origen, destino).Some? ==>
      res == Fallido(MoverCitaFallo(old(ws.rows), origen, destino).value)
      && ws.rows == old(ws.rows)
    ensures MoverCitaFallo(old(ws.rows), origen, destino) == None ==>
      && res == Hecho
      && ws.rows == MoverCitaHoja(old(ws.rows), origen, destino)
  {
    if destino < 1 {
      return Fallido(FilaInvalida(destino));
    }
    var estadoDestino := NormalizaEstado(ws.Cell(destino, ColEstado));
    if estadoDestino != Hueco {
      return Fallido(DestinoNoLibre);
    }
    if origen < 1 {
      return Fallido(FilaInvalida(origen));
    }
    var estadoOrigen := NormalizaEstado(ws.Cell(origen, ColEstado));
    if estadoOrigen == Hueco {
      return Fallido(MoverHueco);
    }

    var cliente := ws.Cell(origen, ColCliente);
    var telefono := ws.Cell(origen, ColTelefono);
    var servicio := OrDefault(ws.Cell(origen, ColServicio), DefaultServicio);
    var duracion := OrDefault(ws.Cell(origen, ColDuracion), IntToString(DefaultDuracionMin));
    var flexibilidad := OrDefault(ws.Cell(origen, ColFlexibilidad), DefaultFlexibilidad);
    var avisada := OrDefault(ws.Cell(origen, ColAvisada), "No");

    ws.UpdateCell(destino, ColEstado, EstadoText(Confirmada));
    ws.UpdateCell(destino, ColCliente, cliente);
    ws.UpdateCell(destino, ColTelefono, telefono);
    ws.UpdateCell(destino, ColServicio, servicio);
    ws.UpdateCell(destino, ColDuracion, duracion);
    ws.UpdateCell(destino, ColFlexibilidad, flexibilidad);
    ws.UpdateCell(destino, ColAvisada, avisada);

    ws.UpdateCell(origen, ColEstado, EstadoText(Hueco));
    ws.UpdateCell(origen, ColCliente, "");
    ws.UpdateCell(origen, ColTelefono, "");
    ws.UpdateCell(origen, ColServicio, DefaultServicio);
    ws.UpdateCell(origen, ColDuracion, IntToString(DefaultDuracionMin));
    ws.UpdateCell(origen, ColFlexibilidad, DefaultFlexibilidad);
    ws.UpdateCell(origen, ColAvisada, "No");
    res := Hecho;
  }

  /** The two checks leave no way to move a slot onto itself. */
  lemma MoverCitaDistintas(g: Grid, origen: int, destino: int)
    requires MoverCitaFallo(g, origen, destino) == None
    ensures origen != destino && origen >= 1 && destino >= 1
    ensures NormalizaEstado(CellAt(g, destino, ColEstado)) == Hueco
    ensures NormalizaEstado(CellAt(g, origen, ColEstado)) != Hueco
  {
  }

  /** The entry `e` once the cells `x` have been written into its row and
      read back: the row and the time stay, every other field is what
      `leer_agenda` reads from the cell written. */
  function Leida(e: Entry, x: Datos): Entry {
    e.(estado := NormalizaEstado(x.estado), cliente := x.cliente,
       telefono := x.telefono, servicio := OrDefault(x.servicio, DefaultServicio),
       duracion := DuracionAMinutos(x.duracion),
       flexibilidad := if x.flexibilidad == "Si" || x.flexibilidad == "No" then x.flexibilidad else DefaultFlexibilidad,
       avisada := x.avisada)
  }

  /** An entry read from a row that holds the cells `x` and the time of
      the entry `d`. */
  lemma FilaLeida(g: Grid, g': Grid, r: int, d: Entry, e: Entry, x: Datos)
    requires d.rowSheet == r && ReadFromCells(g, d)
    requires e.rowSheet == r && ReadFromCells(g', e)
    requires CellAt(g', r, ColHora) == CellAt(g, r, ColHora)
    requires DatosDeFila(g', r) == x
    ensures e == Leida(d, x)
  {
  }

  /** Writing a row of a sheet changes its entry as `Leida` says and no
      other entry. */
  lemma EscribirFilaEfecto(g: Grid, r: int, x: Datos)
    requires 2 <= r <= |g|
    ensures |Agenda(g)| == |g| - 1 == |Agenda(EscribirFila(g, r, x))|
    ensures Agenda(EscribirFila(g, r, x))[r - 2] == Leida(Agenda(g)[r - 2], x)
    ensures IgualSalvo(Agenda(g), Agenda(EscribirFila(g, r, x)), r - 2, r - 2)
  {
    var g' := EscribirFila(g, r, x);
    AgendaTrasEscribir(g, g', r);
    EntradaDeFila(g, r);
    EntradaDeFila(g', r);
    FilaLeida(g, g', r, Agenda(g)[r - 2], Agenda(g')[r - 2], x);
  }

  /** Writing two different rows, one after the other. */
  lemma DosFilasEfecto(g: Grid, r1: int, r2: int, x: Datos, y: Datos)
    requires r1 != r2
    requires 2 <= r1 <= |g| && 2 <= r2 <= |g|
    ensures |Agenda(g)| == |g| - 1 == |Agenda(EscribirFila(EscribirFila(g, r1, x), r2, y))|
    ensures Agenda(EscribirFila(EscribirFila(g, r1, x), r2, y))[r1 - 2] == Leida(Agenda(g)[r1 - 2], x)
    ensures Agenda(EscribirFila(EscribirFila(g, r1, x), r2, y))[r2 - 2] == Leida(Agenda(g)[r2 - 2], y)
    ensures IgualSalvo(Agenda(g), Agenda(EscribirFila(EscribirFila(g, r1, x), r2, y)), r1 - 2, r2 - 2)
  {
    var g1 := EscribirFila(g, r1, x);
    EscribirFilaEfecto(g, r1, x);
    EscribirFilaEfecto(g1, r2, y);
  }

  /** Read back, the copied cells give the origin's entry, confirmed, with
      an empty warned flag as "No". */
  lemma DatosCopiados(g: Grid, origen: int, d: Entry)
    requires 2 <= origen <= |g|
    ensures |Agenda(g)| == |g| - 1
    ensures var o := Agenda(g)[origen - 2];
      Leida(d, MoverCitaDatos(g, origen))
      == d.(estado := Confirmada, cliente := o.cliente, telefono := o.telefono,
            servicio := o.servicio, duracion := o.duracion,
            flexibilidad := o.flexibilidad, avisada := OrDefault(o.avisada, "No"))
  {
    AgendaProperties(g);
    CamposCopiados(g, origen, Agenda(g)[origen - 2]);
  }

  /** The same, field by field, for an entry read from the origin row. */
  lemma CamposCopiados(g: Grid, origen: int, o: Entry)
    requires o.rowSheet == origen && ReadFromCells(g, o)
    ensures var x := MoverCitaDatos(g, origen);
      && NormalizaEstado(x.estado) == Confirmada
      && x.cliente == o.cliente && x.telefono == o.telefono
      && OrDefault(x.servicio, DefaultServicio) == o.servicio
      && DuracionAMinutos(x.duracion) == o.duracion
      && (if x.flexibilidad == "Si" || x.flexibilidad == "No" then x.flexibilidad else DefaultFlexibilidad) == o.flexibilidad
      && x.avisada == OrDefault(o.avisada, "No")
  {
    NormalizaEstadoText(Confirmada);
    DefaultsCopiados(CellAt(g, origen, ColServicio), CellAt(g, origen, ColDuracion), CellAt(g, origen, ColFlexibilidad));
  }

  /** Read back, the cells written into the origin give a free slot with
      the defaults of `leer_agenda`. */
  lemma DatosLimpiosLeidos(d: Entry)
    ensures Leida(d, DatosLimpios())
            == d.(estado := Hueco, cliente := "", telefono := "",
                  servicio := DefaultServicio, duracion := DefaultDuracionMin,
                  flexibilidad := DefaultFlexibilidad, avisada := "No")
  {
    NormalizaEstadoText(Hueco);
    DuracionRoundTrip(DefaultDuracionMin);
  }

  /** On two data rows of the sheet, the destination takes the origin's
      client, phone, service, duration and flexibility as the agenda read
      them, an empty warned flag as "No", and becomes confirmed whatever
      the origin's status was (a cancelled appointment arrives
      confirmed); it keeps its own time. */
  lemma MoverCitaDestino(g: Grid, origen: int, destino: int)
    requires origen != destino
    requires 2 <= origen <= |g| && 2 <= destino <= |g|
    ensures |Agenda(g)| == |g| - 1 == |Agenda(MoverCitaHoja(g, origen, destino))|
    ensures var o := Agenda(g)[origen - 2]; var d := Agenda(g)[destino - 2];
      Agenda(MoverCitaHoja(g, origen, destino))[destino - 2]
      == d.(estado := Confirmada, cliente := o.cliente, telefono := o.telefono,
            servicio := o.servicio, duracion := o.duracion,
            flexibilidad := o.flexibilidad, avisada := OrDefault(o.avisada, "No"))
  {
    DosFilasEfecto(g, destino, origen, MoverCitaDatos(g, origen), DatosLimpios());
    DatosCopiados(g, origen, Agenda(g)[destino - 2]);
  }

  /** The origin becomes a free slot with the default data and keeps its
      time. */
  lemma MoverCitaOrigen(g: Grid, origen: int, destino: int)
    requires origen != destino
    requires 2 <= origen <= |g| && 2 <= destino <= |g|
    ensures |Agenda(g)| == |g| - 1 == |Agenda(MoverCitaHoja(g, origen, destino))|
    ensures Agenda(MoverCitaHoja(g, origen, destino))[origen - 2]
            == Agenda(g)[origen - 2].(estado := Hueco, cliente := "", telefono := "",
                                      servicio := DefaultServicio, duracion := DefaultDuracionMin,
                                      flexibilidad := DefaultFlexibilidad, avisada := "No")
  {
    DosFilasEfecto(g, destino, origen, MoverCitaDatos(g, origen), DatosLimpios());
    DatosLimpiosLeidos(Agenda(g)[origen - 2]);
  }

  /** No entry other than the two moved changes. */
  lemma MoverCitaResto(g: Grid, origen: int, destino: int)
    requires origen != destino
    requires 2 <= origen <= |g| && 2 <= destino <= |g|
    ensures |Agenda(g)| == |g| - 1 == |Agenda(MoverCitaHoja(g, origen, destino))|
    ensures IgualSalvo(Agenda(g), Agenda(MoverCitaHoja(g, origen, destino)), origen - 2, destino - 2)
  {
    DosFilasEfecto(g, destino, origen, MoverCitaDatos(g, origen), DatosLimpios());
  }

  // ---------------------------------------------------------------------
  // aplicar_retraso_manual
  // ---------------------------------------------------------------------

  /** `aplicar_retraso_manual(ws, row_sheet, minutos)`: the time of the row
      moves by `minutos`, written as `{horas:02d}:{mins:02d}` with floor
      division; no row is reordered. */
  method AplicarRetrasoManual(ws: Sheet, rowSheet: int, minutos: int) returns (res: Resultado)
    modifies ws
    ensures rowSheet < 1 ==> res == Fallido(FilaInvalida(rowSheet))
    ensures rowSheet >= 1 && HoraAMinutos(old(ws.Cell(rowSheet, ColHora))) < 0 ==> res == Fallido(HoraInvalida)
    ensures res.Fallido? ==> ws.rows == old(ws.rows)
    ensures rowSheet >= 1 && HoraAMinutos(old(ws.Cell(rowSheet, ColHora))) >= 0 ==>
      var hora := FormatHora(HoraAMinutos(old(ws.Cell(rowSheet, ColHora))) + minutos);
      && res == Hecho
      && ws.rows == SetCell(old(ws.rows), rowSheet, ColHora, hora)
  {
    if rowSheet < 1 {
      return Fallido(FilaInvalida(rowSheet));
    }
    var horaActual := ws.Cell(rowSheet, ColHora);
    var horaMin := HoraAMinutos(horaActual);
    if horaMin < 0 {
      return Fallido(HoraInvalida);
    }
    var nuevaHora := horaMin + minutos;
    var horas := nuevaHora / 60;
    var mins := nuevaHora % 60;
    var horaTxt := Pad2(horas) + ":" + Pad2(mins);
    ws.UpdateCell(rowSheet, ColHora, horaTxt);
    res := Hecho;
  }

  /** Writing `v` as the time of a data row changes the text and the
      minute of its entry and nothing else in the agenda. */
  lemma HoraEfecto(g: Grid, r: int, v: string)
    requires 2 <= r <= |g|
    ensures |Agenda(g)| == |g| - 1 == |Agenda(SetCell(g, r, ColHora, v))|
    ensures var g' := SetCell(g, r, ColHora, v);
      && Agenda(g')[r - 2] == Agenda(g)[r - 2].(hora := v, horaMin := HoraAMinutos(v))
      && IgualSalvo(Agenda(g), Agenda(g'), r - 2, r - 2)
  {
    AgendaTrasEscribir(g, SetCell(g, r, ColHora, v), r);
    EntradaDeFila(g, r);
    EntradaDeFila(SetCell(g, r, ColHora, v), r);
  }

  /** After `aplicar_retraso_manual` writes the label of the minute `n`
      (the old minute plus `minutos`), the entry of the row reads back as
      `n` while that stays within what the label can hold (00:00 to
      99:59), and as an invalid time (-1) outside it; no other entry
      changes. */
  lemma RetrasoManualEfecto(g: Grid, r: int, n: int)
    requires 2 <= r <= |g|
    ensures |Agenda(g)| == |g| - 1 == |Agenda(SetCell(g, r, ColHora, FormatHora(n)))|
    ensures var g' := SetCell(g, r, ColHora, FormatHora(n));
      && Agenda(g')[r - 2] == Agenda(g)[r - 2].(hora := FormatHora(n),
                                                horaMin := if 0 <= n < 6000 then n else -1)
      && IgualSalvo(Agenda(g), Agenda(g'), r - 2, r - 2)
  {
    HoraEfecto(g, r, FormatHora(n));
    FormatHoraRoundTrip(n);
  }

  // ---------------------------------------------------------------------
  // marcar_clientas_avisadas
  // ---------------------------------------------------------------------

  /** The position of the first row number below 1, or `|rows|`. */
  function PrimeraInvalida(rows: seq<int>): (k: nat)
    ensures k <= |rows|
    ensures forall j :: 0 <= j < k ==> rows[j] >= 1
    ensures k < |rows| ==> rows[k] < 1
  {
    if rows == [] then 0
    else if rows[0] < 1 then 0
    else 1 + PrimeraInvalida(rows[1..])
  }

  /** The grid after writing "Si" into column I of each of `rows[..n]`, in order. */
  function MarcarHoja(g: Grid, rows: seq<int>, n: nat): Grid
    requires n <= |rows| && forall j :: 0 <= j < n ==> rows[j] >= 1
  {
    if n == 0 then g
    else SetCell(MarcarHoja(g, rows, n - 1), rows[n - 1], ColAvisada, "Si")
  }

  /** `marcar_clientas_avisadas(ws, rows_sheet)`: the loop stops at the
      first row number gspread refuses, after the rows before it have been
      written. */
  method MarcarClientasAvisadas(ws: Sheet, rows: seq<int>) returns (res: Resultado)
    modifies ws
    ensures var k := PrimeraInvalida(rows);
      && ws.rows == MarcarHoja(old(ws.rows), rows, k)
      && res == if k < |rows| then Fallido(FilaInvalida(rows[k])) else Hecho
  {
    ghost var k := PrimeraInvalida(rows);
    for j := 0 to |rows|
      invariant j <= k
      invariant ws.rows == MarcarHoja(old(ws.rows), rows, j)
    {
      var row := rows[j];
      if row < 1 {
        return Fallido(FilaInvalida(row));
      }
      ws.UpdateCell(row, ColAvisada, "Si");
    }
    res := Hecho;
  }

  /** After marking, column I reads "Si" in exactly the listed rows, every
      other cell as before: the order of `rows` and repeated rows do not
      matter, and marking twice is the same as marking once. */
  lemma {:induction false} MarcarCeldas(g: Grid, rows: seq<int>, n: nat)
    requires n <= |rows| && forall j :: 0 <= j < n ==> rows[j] >= 1
    ensures forall r, c :: CellAt(MarcarHoja(g, rows, n), r, c) ==
              if c == ColAvisada && r in rows[..n] then "Si" else CellAt(g, r, c)
  {
    if n > 0 {
      MarcarCeldas(g, rows, n - 1);
      assert rows[..n] == rows[..n - 1] + [rows[n - 1]];
    }
  }

  /** Marking writes no row past those listed, so a sheet whose data rows
      include every listed row keeps its size. */
  lemma {:induction false} MarcarHojaLen(g: Grid, rows: seq<int>, n: nat)
    requires n <= |rows| && forall j :: 0 <= j < n ==> 1 <= rows[j] <= |g|
    ensures |MarcarHoja(g, rows, n)| == |g|
  {
    if n > 0 {
      MarcarHojaLen(g, rows, n - 1);
    }
  }

  /** On the agenda read back: the entry of every listed data row is marked
      as warned, and every other entry is as it was. */
  lemma MarcarEfecto(g: Grid, rows: seq<int>)
    requires forall j :: 0 <= j < |rows| ==> 2 <= rows[j] <= |g|
    ensures |Agenda(MarcarHoja(g, rows, |rows|))| == |Agenda(g)|
    ensures forall i :: 0 <= i < |Agenda(g)| ==>
              Agenda(MarcarHoja(g, rows, |rows|))[i]
                == if i + 2 in rows then Agenda(g)[i].(avisada := "Si") else Agenda(g)[i]
  {
    var g' := MarcarHoja(g, rows, |rows|);
    MarcarHojaLen(g, rows, |rows|);
    MarcarCeldas(g, rows, |rows|);
    assert rows[..|rows|] == rows;
    AgendaUpToLen(g, |g|);
    AgendaUpToLen(g', |g'|);
    forall i | 0 <= i < |Agenda(g)|
      ensures Agenda(g')[i] == if i + 2 in rows then Agenda(g)[i].(avisada := "Si") else Agenda(g)[i]
    {
      MarcarFila(g, g', i + 2, i + 2 in rows);
    }
  }

  /** One data row whose warned cell is set to "Si", or left alone. */
  lemma MarcarFila(g: Grid, g': Grid, r: int, marcada: bool)
    requires |g'| == |g| && 2 <= r <= |g|
    requires forall c :: CellAt(g', r, c) == if c == ColAvisada && marcada then "Si" else CellAt(g, r, c)
    ensures |Agenda(g)| == |g| - 1 == |Agenda(g')|
    ensures Agenda(g')[r - 2] == if marcada then Agenda(g)[r - 2].(avisada := "Si") else Agenda(g)[r - 2]
  {
    if marcada {
      EntradaDeFila(g, r);
      EntradaDeFila(g', r);
    } else {
      AgendaFrame(g, g', r);
    }
  }

  /** A client just marked as warned is not suggested for any gap. */
  lemma MarcadasNoSugeridas(g: Grid, rows: seq<int>, d: int)
    requires forall j :: 0 <= j < |rows| ==> rows[j] >= 1
    ensures forall s :: s in Sugerir(Agenda(MarcarHoja(g, rows, |rows|)), d) ==> s.rowSheet !in rows
  {
    var g' := MarcarHoja(g, rows, |rows|);
    MarcarCeldas(g, rows, |rows|);
    assert rows[..|rows|] == rows;
    AgendaProperties(g');
    SugerirMiembros(Agenda(g'), d);
    forall s | s in Sugerir(Agenda(g'), d) ensures s.rowSheet !in rows {
      var e :| e in Agenda(g') && Elegible(e, d) && s == SugeridaDe(e);
      var i :| 0 <= i < |Agenda(g')| && Agenda(g')[i] == e;
      assert ReadFromCells(g', e);
    }
  }
}
