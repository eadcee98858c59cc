/** `detectar_retrasos_y_adelantos`: over the agenda sorted by start minute,
    each pair of neighbouring slots that are both confirmed is checked for a
    delay (the first overruns the second's start) and for an advance (the
    second could start at least `margen` minutes earlier). */
module Retrasos {
  import opened Normalize
  import opened Lectura
  import opened Ordering
  import opened Worksheet

  /** The margin `detectar_retrasos_y_adelantos` uses when none is given. */
  const MargenAdelantoPorDefecto := 5

  /** The client a warning is about. */
  datatype ClientaRef = ClientaRef(cliente: string, telefono: string, rowSheet: int)
  /** The appointment that causes a delay. */
  datatype CausaRef = CausaRef(cliente: string, servicio: string, rowSheet: int)

  datatype Aviso =
    | Retraso(minutos: int, afectaA: ClientaRef, causadoPor: CausaRef)
    | Adelanto(minutos: int, posibleCon: ClientaRef, libreDesde: int)

  function RefDe(e: Entry): ClientaRef {
    ClientaRef(e.cliente, e.telefono, e.rowSheet)
  }

  function CausaDe(e: Entry): CausaRef {
    CausaRef(e.cliente, e.servicio, e.rowSheet)
  }

  /** The projected end of an appointment. */
  function FinPrevisto(e: Entry): int {
    e.horaMin + e.duracion
  }

  /** The warnings for the neighbouring slots `actual`, `siguiente`: the
      delay check and the advance check are independent tests. */
  function AvisosPar(actual: Entry, siguiente: Entry, margen: int): seq<Aviso> {
    if actual.estado != Confirmada || siguiente.estado != Confirmada then []
    else
      var fin := FinPrevisto(actual);
      var inicio := siguiente.horaMin;
      (if fin > inicio then [Retraso(fin - inicio, RefDe(siguiente), CausaDe(actual))] else [])
      + (if inicio - fin >= margen then [Adelanto(inicio - fin, RefDe(siguiente), fin)] else [])
  }

  /** The warnings for the pair at positions `i` and `i + 1` of `df`. */
  function Par(df: seq<Entry>, i: int, margen: int): seq<Aviso>
    requires 0 <= i < |df| - 1
  {
    AvisosPar(df[i], df[i + 1], margen)
  }

  /** The warnings of the first `n` pairs of `df`, in order. */
  function AvisosEn(df: seq<Entry>, n: nat, margen: int): seq<Aviso>
    requires n == 0 || n < |df|
  {
    if n == 0 then [] else AvisosEn(df, n - 1, margen) + Par(df, n - 1, margen)
  }

  /** The warnings of all neighbouring pairs of `df`. */
  function Avisos(df: seq<Entry>, margen: int): seq<Aviso> {
    if |df| < 2 then [] else AvisosEn(df, |df| - 1, margen)
  }

  /** `detectar_retrasos_y_adelantos(ws, margen_adelanto)`. */
  method DetectarRetrasosYAdelantos(ws: Sheet, margen: int) returns (avisos: seq<Aviso>)
    ensures exists df :: IsOrderingOf(df, Agenda(ws.rows)) && avisos == Avisos(df, margen)
    ensures forall x :: x in avisos ==> AvisoFundado(Agenda(ws.rows), x, margen)
  {
    var agenda := LeerAgenda(ws);
    var df := SortByHora(agenda);
    if agenda == [] {
      avisos := [];
      assert avisos == Avisos(df, margen);
    } else {
      avisos := RecorrerPares(df, margen);
    }
    AvisosDeOrdenacion(df, agenda, margen);
  }

  /** The loop of `detectar_retrasos_y_adelantos` over the sorted frame: the
      pairs in order, a delay before an advance within each pair. */
  method RecorrerPares(df: seq<Entry>, margen: int) returns (avisos: seq<Aviso>)
    ensures avisos == Avisos(df, margen)
  {
    avisos := [];
    var i := 0;
    while i + 1 < |df|
      invariant 0 <= i && (i == 0 || i < |df|)
      invariant avisos == AvisosEn(df, i, margen)
    {
      var actual := df[i];
      var siguiente := df[i + 1];
      if actual.estado == Confirmada && siguiente.estado == Confirmada {
        var fin := actual.horaMin + actual.duracion;
        var inicio := siguiente.horaMin;
        if fin > inicio {
          avisos := avisos + [Retraso(fin - inicio, RefDe(siguiente), CausaDe(actual))];
        }
        if inicio - fin >= margen {
          avisos := avisos + [Adelanto(inicio - fin, RefDe(siguiente), fin)];
        }
      }
      i := i + 1;
    }
  }

  // ---------------------------------------------------------------------
  // Properties
  // ---------------------------------------------------------------------

  /** One pair: a delay of `fin - inicio` exactly when both are confirmed
      and the first ends after the second starts; an advance of
      `inicio - fin` exactly when both are confirmed and the second could
      start at least `margen` minutes earlier; with a non-negative margin
      never both; with a negative margin both for a small overrun. */
  lemma AvisosParCases(a: Entry, b: Entry, margen: int)
    ensures var r := AvisosPar(a, b, margen);
      && ((exists x :: x in r && x.Retraso?) <==>
            a.estado == Confirmada && b.estado == Confirmada && FinPrevisto(a) > b.horaMin)
      && ((exists x :: x in r && x.Adelanto?) <==>
            a.estado == Confirmada && b.estado == Confirmada && b.horaMin - FinPrevisto(a) >= margen)
      && (forall x :: x in r && x.Retraso? ==>
            x == Retraso(FinPrevisto(a) - b.horaMin, RefDe(b), CausaDe(a)) && x.minutos > 0)
      && (forall x :: x in r && x.Adelanto? ==>
            x == Adelanto(b.horaMin - FinPrevisto(a), RefDe(b), FinPrevisto(a)) && x.minutos >= margen)
      && (margen >= 0 ==> |r| <= 1)
      && (a.estado == Confirmada && b.estado == Confirmada && 0 < FinPrevisto(a) - b.horaMin <= -margen ==> |r| == 2)
  {
    var r := AvisosPar(a, b, margen);
    if a.estado == Confirmada && b.estado == Confirmada {
      if FinPrevisto(a) > b.horaMin {
        assert r[0] in r && r[0].Retraso?;
      }
      if b.horaMin - FinPrevisto(a) >= margen {
        assert r[|r| - 1] in r && r[|r| - 1].Adelanto?;
      }
    }
  }

  /** With the default margin a pair gives at most one warning, an advance
      is of at least five minutes, and a slack of under five minutes is
      not reported at all. */
  lemma AvisosPorDefecto(a: Entry, b: Entry)
    ensures var r := AvisosPar(a, b, MargenAdelantoPorDefecto);
      && |r| <= 1
      && (forall x :: x in r && x.Adelanto? ==> x.minutos >= MargenAdelantoPorDefecto)
      && (0 <= b.horaMin - FinPrevisto(a) < MargenAdelantoPorDefecto ==> r == [])
  {
    AvisosParCases(a, b, MargenAdelantoPorDefecto);
  }

  /** Every warning of the sorted frame comes from one neighbouring pair,
      and every warning of every neighbouring pair is reported. */
  lemma {:induction false} AvisosEnPares(df: seq<Entry>, n: nat, margen: int)
    requires n == 0 || n < |df|
    ensures forall x :: x in AvisosEn(df, n, margen) <==> exists i :: 0 <= i < n && x in Par(df, i, margen)
  {
    if n > 0 {
      AvisosEnPares(df, n - 1, margen);
    }
  }

  lemma AvisosPares(df: seq<Entry>, margen: int)
    ensures forall x :: x in Avisos(df, margen) <==> exists i :: 0 <= i < |df| - 1 && x in Par(df, i, margen)
  {
    if |df| >= 2 {
      AvisosEnPares(df, |df| - 1, margen);
    }
  }

  /** A warning is justified by two confirmed appointments of the agenda
      whose start times are in order: a delay names the overrun, the
      delayed client and the cause; an advance names its size, the client
      who could come earlier and when the chair becomes free. */
  ghost predicate AvisoFundado(agenda: seq<Entry>, x: Aviso, margen: int) {
    exists a, b :: a in agenda && b in agenda
      && a.estado == Confirmada && b.estado == Confirmada && a.horaMin <= b.horaMin
      && (x.Retraso? ==> FinPrevisto(a) > b.horaMin && x == Retraso(FinPrevisto(a) - b.horaMin, RefDe(b), CausaDe(a)))
      && (x.Adelanto? ==> b.horaMin - FinPrevisto(a) >= margen && x == Adelanto(b.horaMin - FinPrevisto(a), RefDe(b), FinPrevisto(a)))
  }

  /** For every order the sort may give, every warning is justified. */
  lemma AvisosDeOrdenacion(df: seq<Entry>, agenda: seq<Entry>, margen: int)
    requires IsOrderingOf(df, agenda)
    ensures forall x :: x in Avisos(df, margen) ==> AvisoFundado(agenda, x, margen)
  {
    AvisosPares(df, margen);
    forall x | x in Avisos(df, margen) ensures AvisoFundado(agenda, x, margen) {
      var i :| 0 <= i < |df| - 1 && x in Par(df, i, margen);
      var a, b := df[i], df[i + 1];
      AvisosParCases(a, b, margen);
      assert a in multiset(agenda) && b in multiset(agenda) by {
        assert a in multiset(df) && b in multiset(df);
      }
    }
  }

  /** A pair is only examined when both slots are confirmed and adjacent in
      the sorted frame: a slot in between that is free or cancelled breaks
      the pair, and no warning is caused by the first slot about the third. */
  lemma PairBrokenByGap(df: seq<Entry>, i: int, margen: int)
    requires 0 <= i < |df| - 1
    requires df[i + 1].estado != Confirmada
    ensures Par(df, i, margen) == []
    ensures i + 2 < |df| ==> Par(df, i + 1, margen) == []
  {
  }
}
