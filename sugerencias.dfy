/** `sugerir_clientas_para_hueco`: the confirmed clients who accept a change
    of time, have not been warned yet and whose service fits in the gap. */
module Sugerencias {
  import opened Normalize
  import opened Lectura

  /** One suggestion: the client and the slot the client holds now. */
  datatype Sugerida = Sugerida(cliente: string, telefono: string, servicio: string, duracion: int, rowSheet: int)

  /** The four filters of the loop, in the order the loop tests them. */
  predicate Elegible(e: Entry, duracionHueco: int) {
    && e.estado == Confirmada
    && e.flexibilidad == "Si"
    && e.avisada != "Si"
    && e.duracion <= duracionHueco
  }

  function SugeridaDe(e: Entry): Sugerida {
    Sugerida(e.cliente, e.telefono, e.servicio, e.duracion, e.rowSheet)
  }

  /** The suggestions among `agenda[..n]`, in agenda order. */
  function SugerirEn(agenda: seq<Entry>, n: nat, duracionHueco: int): seq<Sugerida>
    requires n <= |agenda|
  {
    if n == 0 then []
    else SugerirEn(agenda, n - 1, duracionHueco)
         + (if Elegible(agenda[n - 1], duracionHueco) then [SugeridaDe(agenda[n - 1])] else [])
  }

  function Sugerir(agenda: seq<Entry>, duracionHueco: int): seq<Sugerida> {
    SugerirEn(agenda, |agenda|, duracionHueco)
  }

  /** `sugerir_clientas_para_hueco(agenda, duracion_hueco)`. */
  method SugerirClientasParaHueco(agenda: seq<Entry>, duracionHueco: int) returns (sugeridas: seq<Sugerida>)
    ensures sugeridas == Sugerir(agenda, duracionHueco)
  {
    sugeridas := [];
    for i := 0 to |agenda|
      invariant sugeridas == SugerirEn(agenda, i, duracionHueco)
    {
      var row := agenda[i];
      if row.estado != Confirmada {
        continue;
      }
      if row.flexibilidad != "Si" {
        continue;
      }
      if row.avisada == "Si" {
        continue;
      }
      if row.duracion > duracionHueco {
        continue;
      }
      sugeridas := sugeridas + [SugeridaDe(row)];
    }
  }

  // ---------------------------------------------------------------------
  // Properties
  // ---------------------------------------------------------------------

  /** A suggestion is exactly an eligible slot of the agenda, projected;
      the suggestions are a subsequence of the agenda, so they keep its
      order of rows. */
  lemma {:induction false} SugerirEnMiembros(agenda: seq<Entry>, n: nat, d: int)
    requires n <= |agenda|
    ensures |SugerirEn(agenda, n, d)| <= n
    ensures forall s :: s in SugerirEn(agenda, n, d) <==>
              exists k :: 0 <= k < n && Elegible(agenda[k], d) && s == SugeridaDe(agenda[k])
    ensures (forall i, j :: 0 <= i < j < |agenda| ==> agenda[i].rowSheet < agenda[j].rowSheet) ==>
              (forall s :: s in SugerirEn(agenda, n, d) ==> exists k :: 0 <= k < n && s.rowSheet == agenda[k].rowSheet)
              && forall i, j :: 0 <= i < j < |SugerirEn(agenda, n, d)| ==>
                   SugerirEn(agenda, n, d)[i].rowSheet < SugerirEn(agenda, n, d)[j].rowSheet
  {
    if n > 0 {
      SugerirEnMiembros(agenda, n - 1, d);
      var p := SugerirEn(agenda, n - 1, d);
      var r := SugerirEn(agenda, n, d);
      if (forall i, j :: 0 <= i < j < |agenda| ==> agenda[i].rowSheet < agenda[j].rowSheet)
         && Elegible(agenda[n - 1], d) {
        assert r == p + [SugeridaDe(agenda[n - 1])];
        forall i, j | 0 <= i < j < |r| ensures r[i].rowSheet < r[j].rowSheet {
          if j == |r| - 1 {
            assert r[i] in p;
            var k :| 0 <= k < n - 1 && r[i].rowSheet == agenda[k].rowSheet;
          } else {
            assert r[i] == p[i] && r[j] == p[j];
          }
        }
      }
    }
  }

  /** Both directions of the filter over the whole agenda, and every
      suggestion fits in the gap and belongs to a client not yet warned. */
  lemma SugerirMiembros(agenda: seq<Entry>, d: int)
    ensures forall s :: s in Sugerir(agenda, d) <==> exists e :: e in agenda && Elegible(e, d) && s == SugeridaDe(e)
    ensures forall s :: s in Sugerir(agenda, d) ==> s.duracion <= d
    ensures |Sugerir(agenda, d)| <= |agenda|
  {
    SugerirEnMiembros(agenda, |agenda|, d);
  }

  /** On the agenda of a sheet, the suggestions come in increasing row
      order, each row at most once. */
  lemma SugerirOrdenFilas(values: seq<seq<string>>, d: int)
    ensures forall i, j :: 0 <= i < j < |Sugerir(Agenda(values), d)| ==>
              Sugerir(Agenda(values), d)[i].rowSheet < Sugerir(Agenda(values), d)[j].rowSheet
  {
    AgendaProperties(values);
    SugerirEnMiembros(Agenda(values), |Agenda(values)|, d);
  }

  /** A longer gap keeps every suggestion of a shorter one. */
  lemma SugerirMonotono(agenda: seq<Entry>, d: int, d': int)
    requires d <= d'
    ensures forall s :: s in Sugerir(agenda, d) ==> s in Sugerir(agenda, d')
  {
    SugerirMiembros(agenda, d);
    SugerirMiembros(agenda, d');
  }
}
