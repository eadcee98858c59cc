/** `detectar_huecos`: for every free slot, the minutes it offers up to the
    next slot that is not free, capped at 180 when there is none. */
module Huecos {
  import opened Normalize
  import opened Lectura
  import opened Ordering
  import opened Worksheet

  /** The minutes a free slot offers when no later slot is taken. */
  const DuracionSinSiguiente := 180
  /** A gap of at least this many minutes admits a long service. */
  const MinutosLargo := 60

  /** One record of `detectar_huecos`. */
  datatype HuecoInfo = HuecoInfo(hora: string, horaMin: int, duracion: int, rowSheet: int, admiteLargo: bool)

  /** `df[(df["Hora_min"] > inicio) & (df["Estado"] != "hueco")]`: the slots
      that are not free and start strictly later, in the order of `df`. */
  function Siguientes(df: seq<Entry>, inicio: int): (r: seq<Entry>)
    ensures forall x :: x in r <==> x in df && x.estado != Hueco && x.horaMin > inicio
    ensures SortedByHora(df) ==> SortedByHora(r)
  {
    if df == [] then []
    else
      var rest := Siguientes(df[1..], inicio);
      assert forall x :: x in df <==> x == df[0] || x in df[1..] by {
        assert df == [df[0]] + df[1..];
      }
      if df[0].horaMin > inicio && df[0].estado != Hueco then
        if SortedByHora(df) then
          assert forall y :: y in rest ==> df[0].horaMin <= y.horaMin by {
            forall y | y in rest ensures df[0].horaMin <= y.horaMin {
              var k :| 0 <= k < |df[1..]| && df[1..][k] == y;
              assert df[k + 1] == y;
            }
          }
          SortedCons(df[0], rest);
          [df[0]] + rest
        else
          [df[0]] + rest
      else
        rest
  }

  /** The record for the free slot `e` of the sorted frame `df`. */
  function HuecoDe(df: seq<Entry>, e: Entry): HuecoInfo {
    var siguientes := Siguientes(df, e.horaMin);
    var duracion :=
      if siguientes != [] then
        var fin := siguientes[0].horaMin;
        if fin - e.horaMin > 0 then fin - e.horaMin else 0
      else DuracionSinSiguiente;
    HuecoInfo(e.hora, e.horaMin, duracion, e.rowSheet, duracion >= MinutosLargo)
  }

  /** The records for the free slots among `df[..n]`, in the order of `df`. */
  function HuecosEn(df: seq<Entry>, n: nat): seq<HuecoInfo>
    requires n <= |df|
  {
    if n == 0 then []
    else HuecosEn(df, n - 1) + (if df[n - 1].estado == Hueco then [HuecoDe(df, df[n - 1])] else [])
  }

  /** `detectar_huecos(ws)`: read the agenda, sort it by start minute, one
      record per free slot. */
  method DetectarHuecos(ws: Sheet) returns (huecos: seq<HuecoInfo>)
    ensures exists df :: IsOrderingOf(df, Agenda(ws.rows)) && huecos == HuecosEn(df, |df|)
    ensures |huecos| == CountHuecos(Agenda(ws.rows))
    ensures forall h :: h in huecos ==>
              exists e :: e in Agenda(ws.rows) && e.estado == Hueco && HuecoCorrecto(Agenda(ws.rows), e, h)
    ensures forall e :: e in Agenda(ws.rows) && e.estado == Hueco ==>
              exists h :: h in huecos && HuecoCorrecto(Agenda(ws.rows), e, h)
    ensures HuecosOrdenados(huecos)
  {
    var agenda := LeerAgenda(ws);
    var df := SortByHora(agenda);
    if agenda == [] {
      huecos := [];
      assert huecos == HuecosEn(df, |df|);
    } else {
      huecos := [];
      var i := 0;
      while i < |df|
        invariant 0 <= i <= |df|
        invariant huecos == HuecosEn(df, i)
      {
        if df[i].estado == Hueco {
          huecos := huecos + [HuecoDe(df, df[i])];
        }
        i := i + 1;
      }
    }
    assert IsOrderingOf(df, agenda) && huecos == HuecosEn(df, |df|);
    HuecosDeOrdenacion(df, agenda);
  }

  /** For every order the sort may give, the records meet the
      specification stated over the unsorted agenda. */
  lemma HuecosDeOrdenacion(df: seq<Entry>, agenda: seq<Entry>)
    requires IsOrderingOf(df, agenda)
    ensures |HuecosEn(df, |df|)| == CountHuecos(agenda)
    ensures forall h :: h in HuecosEn(df, |df|) ==>
              exists e :: e in agenda && e.estado == Hueco && HuecoCorrecto(agenda, e, h)
    ensures forall e :: e in agenda && e.estado == Hueco ==>
              exists h :: h in HuecosEn(df, |df|) && HuecoCorrecto(agenda, e, h)
    ensures HuecosOrdenados(HuecosEn(df, |df|))
  {
    HuecosEnCorrecto(df);
    CountHuecosPerm(df, agenda);
    SameElements(df, agenda);
    forall e, h | HuecoCorrecto(df, e, h) ensures HuecoCorrecto(agenda, e, h) {
    }
  }

  lemma SameElements(a: seq<Entry>, b: seq<Entry>)
    requires multiset(a) == multiset(b)
    ensures forall x :: x in a <==> x in b
  {
    forall x ensures x in a <==> x in b {
      assert x in a <==> x in multiset(a);
      assert x in b <==> x in multiset(b);
    }
  }

  // ---------------------------------------------------------------------
  // Specification of a gap record, independent of the order of the frame.
  // ---------------------------------------------------------------------

  /** `h` is the right record for the free slot `e` among the entries
      `agenda`: same time and row; its length reaches exactly the earliest
      later start of a slot that is not free, or is 180 when there is none;
      the length is positive; long services are admitted from 60 minutes. */
  ghost predicate HuecoCorrecto(agenda: seq<Entry>, e: Entry, h: HuecoInfo) {
    && h.hora == e.hora && h.horaMin == e.horaMin && h.rowSheet == e.rowSheet
    && h.duracion > 0
    && (h.admiteLargo <==> h.duracion >= MinutosLargo)
    && ((forall x :: x in agenda && x.estado != Hueco ==> x.horaMin <= e.horaMin) ==> h.duracion == DuracionSinSiguiente)
    && (forall x :: x in agenda && x.estado != Hueco && x.horaMin > e.horaMin ==> e.horaMin + h.duracion <= x.horaMin)
    && ((exists x :: x in agenda && x.estado != Hueco && x.horaMin > e.horaMin) ==>
          exists x :: x in agenda && x.estado != Hueco && x.horaMin == e.horaMin + h.duracion)
  }

  /** On a sorted frame the first later slot that is not free is the
      earliest one, so the record of every free slot meets its
      specification. */
  lemma HuecoDeCorrecto(df: seq<Entry>, e: Entry)
    requires SortedByHora(df)
    ensures HuecoCorrecto(df, e, HuecoDe(df, e))
  {
    var siguientes := Siguientes(df, e.horaMin);
    if siguientes != [] {
      assert siguientes[0] in siguientes;
      forall x | x in df && x.estado != Hueco && x.horaMin > e.horaMin
        ensures siguientes[0].horaMin <= x.horaMin
      {
        assert x in siguientes;
        var k :| 0 <= k < |siguientes| && siguientes[k] == x;
        if k > 0 {
          assert siguientes[0].horaMin <= siguientes[k].horaMin;
        }
      }
    } else {
      forall x | x in df && x.estado != Hueco
        ensures x.horaMin <= e.horaMin
      {
        assert x !in siguientes;
      }
    }
  }

  /** The record of a free slot is the same whatever order the sort gives
      to slots that start at the same minute. */
  lemma HuecoDeOrderIndependent(df1: seq<Entry>, df2: seq<Entry>, e: Entry)
    requires SortedByHora(df1) && SortedByHora(df2) && multiset(df1) == multiset(df2)
    ensures HuecoDe(df1, e) == HuecoDe(df2, e)
  {
    HuecoDeCorrecto(df1, e);
    HuecoDeCorrecto(df2, e);
    SameElements(df1, df2);
    var h1, h2 := HuecoDe(df1, e), HuecoDe(df2, e);
    if exists x :: x in df1 && x.estado != Hueco && x.horaMin > e.horaMin {
      var x1 :| x1 in df1 && x1.estado != Hueco && x1.horaMin == e.horaMin + h1.duracion;
      var x2 :| x2 in df2 && x2.estado != Hueco && x2.horaMin == e.horaMin + h2.duracion;
      assert e.horaMin + h2.duracion <= x1.horaMin;
      assert e.horaMin + h1.duracion <= x2.horaMin;
    }
  }

  /** The number of free slots among `s`. */
  function CountHuecos(s: seq<Entry>): nat {
    if s == [] then 0 else CountHuecos(s[..|s| - 1]) + (if s[|s| - 1].estado == Hueco then 1 else 0)
  }

  lemma {:induction false} CountHuecosAppend(a: seq<Entry>, b: seq<Entry>)
    ensures CountHuecos(a + b) == CountHuecos(a) + CountHuecos(b)
  {
    if b != [] {
      assert (a + b)[..|a + b| - 1] == a + b[..|b| - 1];
      CountHuecosAppend(a, b[..|b| - 1]);
    } else {
      assert a + b == a;
    }
  }

  /** Reordering the entries does not change how many are free. */
  lemma {:induction false} CountHuecosPerm(a: seq<Entry>, b: seq<Entry>)
    requires multiset(a) == multiset(b)
    ensures CountHuecos(a) == CountHuecos(b)
    decreases |a|
  {
    if a != [] {
      var x := a[|a| - 1];
      var a' := a[..|a| - 1];
      assert a == a' + [x];
      assert x in multiset(b);
      var k :| 0 <= k < |b| && b[k] == x;
      var b' := b[..k] + b[k + 1..];
      assert b == b[..k] + [x] + b[k + 1..];
      calc {
        multiset(a');
        multiset(a) - multiset{x};
        multiset(b) - multiset{x};
        multiset(b[..k]) + multiset{x} + multiset(b[k + 1..]) - multiset{x};
        multiset(b[..k]) + multiset(b[k + 1..]);
        multiset(b');
      }
      CountHuecosPerm(a', b');
      CountHuecosAppend(a', [x]);
      CountHuecosAppend(b[..k] + [x], b[k + 1..]);
      CountHuecosAppend(b[..k], [x]);
      CountHuecosAppend(b[..k], b[k + 1..]);
    } else {
      assert b == [];
    }
  }

  /** On a sorted frame there is one record per free slot, in the frame's
      order (so non-decreasing in start minute), each meeting its
      specification. */
  lemma {:induction false} HuecosEnCorrecto(df: seq<Entry>)
    requires SortedByHora(df)
    ensures |HuecosEn(df, |df|)| == CountHuecos(df)
    ensures forall h :: h in HuecosEn(df, |df|) ==> exists e :: e in df && e.estado == Hueco && HuecoCorrecto(df, e, h)
    ensures forall e :: e in df && e.estado == Hueco ==> exists h :: h in HuecosEn(df, |df|) && HuecoCorrecto(df, e, h)
    ensures HuecosOrdenados(HuecosEn(df, |df|))
  {
    HuecosPrefixCount(df, |df|);
    HuecosPrefix(df, |df|);
    HuecosPrefixOrden(df, |df|);
    assert df[..|df|] == df;
    forall e | e in df && e.estado == Hueco
      ensures exists h :: h in HuecosEn(df, |df|) && HuecoCorrecto(df, e, h)
    {
      var k :| 0 <= k < |df| && df[k] == e;
      HuecoDeCorrecto(df, e);
    }
    forall h | h in HuecosEn(df, |df|)
      ensures exists e :: e in df && e.estado == Hueco && HuecoCorrecto(df, e, h)
    {
      var k :| 0 <= k < |df| && df[k].estado == Hueco && h == HuecoDe(df, df[k]);
      HuecoDeCorrecto(df, df[k]);
    }
  }

  /** Non-decreasing in start minute. */
  predicate HuecosOrdenados(hs: seq<HuecoInfo>) {
    forall i, j :: 0 <= i < j < |hs| ==> hs[i].horaMin <= hs[j].horaMin
  }

  /** One record per free slot among `df[..n]`. */
  lemma {:induction false} HuecosPrefixCount(df: seq<Entry>, n: nat)
    requires n <= |df|
    ensures |HuecosEn(df, n)| == CountHuecos(df[..n])
  {
    if n > 0 {
      HuecosPrefixCount(df, n - 1);
      assert df[..n][..n - 1] == df[..n - 1];
    }
  }

  /** The records of `df[..n]` are exactly those of its free slots. */
  lemma {:induction false} HuecosPrefix(df: seq<Entry>, n: nat)
    requires n <= |df|
    ensures forall h :: h in HuecosEn(df, n) <==>
              exists k :: 0 <= k < n && df[k].estado == Hueco && h == HuecoDe(df, df[k])
  {
    if n > 0 {
      HuecosPrefix(df, n - 1);
      if df[n - 1].estado == Hueco {
        assert HuecoDe(df, df[n - 1]) in HuecosEn(df, n);
      }
    }
  }

  /** On a sorted frame the records of `df[..n]` come in order and none
      starts after `df[n - 1]`. */
  lemma {:induction false} HuecosPrefixOrden(df: seq<Entry>, n: nat)
    requires n <= |df| && SortedByHora(df)
    ensures HuecosOrdenados(HuecosEn(df, n))
    ensures n > 0 ==> forall i :: 0 <= i < |HuecosEn(df, n)| ==> HuecosEn(df, n)[i].horaMin <= df[n - 1].horaMin
  {
    if n > 0 {
      HuecosPrefixOrden(df, n - 1);
      var r := HuecosEn(df, n);
      var prev := HuecosEn(df, n - 1);
      forall i | 0 <= i < |r| ensures r[i].horaMin <= df[n - 1].horaMin {
        if i < |prev| {
          assert r[i] == prev[i];
          assert n - 1 > 0;
          assert df[n - 2].horaMin <= df[n - 1].horaMin;
        }
      }
      forall i, j | 0 <= i < j < |r| ensures r[i].horaMin <= r[j].horaMin {
        if j < |prev| {
          assert r[i] == prev[i] && r[j] == prev[j];
        }
      }
    }
  }
}
