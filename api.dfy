/** The one endpoint that composes the services: the suggestions for the
    free slot of a given sheet row. */
module Api {
  import opened Normalize
  import opened Worksheet
  import opened Lectura
  import opened Huecos
  import opened Sugerencias

  /** `obtener_sugeridas_para_hueco(row_sheet)` on the sheet of the day:
      the first gap record with that row decides the gap length; with no
      such record the answer is empty. */
  method ObtenerSugeridasParaHueco(ws: Sheet, rowSheet: int) returns (sugeridas: seq<Sugerida>)
    ensures (forall e :: e in Agenda(ws.rows) && e.estado == Hueco ==> e.rowSheet != rowSheet) ==> sugeridas == []
    ensures forall e :: e in Agenda(ws.rows) && e.estado == Hueco && e.rowSheet == rowSheet ==>
              exists h :: HuecoCorrecto(Agenda(ws.rows), e, h) && sugeridas == Sugerir(Agenda(ws.rows), h.duracion)
  {
    var agenda := LeerAgenda(ws);
    var huecos := DetectarHuecos(ws);
    AgendaProperties(ws.rows);
    sugeridas := SugeridasDeLaFila(agenda, huecos, rowSheet);
  }

  /** The rest of `obtener_sugeridas_para_hueco` once the agenda and its
      gap records have been read. */
  method SugeridasDeLaFila(agenda: seq<Entry>, huecos: seq<HuecoInfo>, rowSheet: int)
    returns (sugeridas: seq<Sugerida>)
    requires FilasCrecientes(agenda)
    requires forall h :: h in huecos ==> exists e :: e in agenda && e.estado == Hueco && HuecoCorrecto(agenda, e, h)
    requires forall e :: e in agenda && e.estado == Hueco ==> exists h :: h in huecos && HuecoCorrecto(agenda, e, h)
    ensures (forall e :: e in agenda && e.estado == Hueco ==> e.rowSheet != rowSheet) ==> sugeridas == []
    ensures forall e :: e in agenda && e.estado == Hueco && e.rowSheet == rowSheet ==>
              exists h :: HuecoCorrecto(agenda, e, h) && sugeridas == Sugerir(agenda, h.duracion)
  {
    var i := PrimerHueco(huecos, rowSheet);
    if i == |huecos| {
      SinRegistro(agenda, huecos, rowSheet);
      return [];
    }
    var hueco := huecos[i];
    sugeridas := SugerirClientasParaHueco(agenda, hueco.duracion);
    RegistroDeLaFila(agenda, huecos, hueco);
  }

  /** `next((h for h in huecos if h["row_sheet"] == row_sheet), None)`: the
      position of the first record of the row, or `|huecos|` when there is
      none. */
  method PrimerHueco(huecos: seq<HuecoInfo>, rowSheet: int) returns (i: nat)
    ensures i <= |huecos|
    ensures i < |huecos| ==> huecos[i].rowSheet == rowSheet
    ensures forall j :: 0 <= j < i ==> huecos[j].rowSheet != rowSheet
  {
    i := 0;
    while i < |huecos| && huecos[i].rowSheet != rowSheet
      invariant 0 <= i <= |huecos|
      invariant forall j :: 0 <= j < i ==> huecos[j].rowSheet != rowSheet
    {
      i := i + 1;
    }
  }

  /** With a record for every free slot, a row without a record is not a
      free slot. */
  lemma SinRegistro(agenda: seq<Entry>, huecos: seq<HuecoInfo>, rowSheet: int)
    requires forall e :: e in agenda && e.estado == Hueco ==> exists h :: h in huecos && HuecoCorrecto(agenda, e, h)
    requires forall j :: 0 <= j < |huecos| ==> huecos[j].rowSheet != rowSheet
    ensures forall e :: e in agenda && e.estado == Hueco ==> e.rowSheet != rowSheet
  {
    forall e | e in agenda && e.estado == Hueco ensures e.rowSheet != rowSheet {
      var h :| h in huecos && HuecoCorrecto(agenda, e, h);
    }
  }

  /** Records come only from free slots, and a row holds one entry, so a
      record found by its row is the record of that row's free slot. */
  lemma RegistroDeLaFila(agenda: seq<Entry>, huecos: seq<HuecoInfo>, h: HuecoInfo)
    requires FilasCrecientes(agenda)
    requires forall h :: h in huecos ==> exists e :: e in agenda && e.estado == Hueco && HuecoCorrecto(agenda, e, h)
    requires h in huecos
    ensures forall e :: e in agenda && e.estado == Hueco && e.rowSheet == h.rowSheet ==> HuecoCorrecto(agenda, e, h)
  {
    var e' :| e' in agenda && e'.estado == Hueco && HuecoCorrecto(agenda, e', h);
    forall e | e in agenda && e.estado == Hueco && e.rowSheet == h.rowSheet
      ensures HuecoCorrecto(agenda, e, h)
    {
      FilaUnica(agenda, e, e');
    }
  }
}
