/** Field normalisers of the agenda: the state of a slot, a duration in
    minutes and a clock time in minutes since midnight, each a total
    function from the cell text to a value with a default. */
module Normalize {
  import opened Text

  /** Business defaults of the deployment. */
  const DefaultDuracionMin: int := 30
  const DefaultFlexibilidad: string := "No"
  const DefaultServicio: string := "Servicio"

  /** The three states a slot can be in once its text is normalised. */
  datatype Estado = Hueco | Confirmada | Cancelada

  /** The text the services write into the state column. */
  function EstadoText(e: Estado): string {
    match e
    case Hueco => "hueco"
    case Confirmada => "confirmada"
    case Cancelada => "cancelada"
  }

  /** `normaliza_estado`: synonyms are matched after stripping and
      lower-casing; empty or unrecognised text is a free slot. */
  function NormalizaEstado(valor: string): (e: Estado)
    ensures valor == "" ==> e == Hueco
  {
    if valor == "" then Hueco
    else
      var v := Lower(Strip(valor));
      if v == "confirmada" || v == "confirmado" then Confirmada
      else if v == "cancelada" || v == "cancelado" then Cancelada
      else if v == "hueco" || v == "vacío" || v == "vacio" then Hueco
      else Hueco
  }

  lemma LowerOfLower(s: string)
    requires forall i :: 0 <= i < |s| ==> !('A' <= s[i] <= 'Z')
    ensures Lower(s) == s
  {
  }

  /** Reading back what the services write gives the state written. */
  lemma NormalizaEstadoText(e: Estado)
    ensures NormalizaEstado(EstadoText(e)) == e
  {
    var t := EstadoText(e);
    StripNoSpaceEnds(t);
    LowerOfLower(t);
  }

  /** Matching does not depend on letter case. */
  lemma NormalizaEstadoCaseBlind(a: string, b: string)
    requires Lower(a) == Lower(b)
    ensures NormalizaEstado(a) == NormalizaEstado(b)
  {
    StripLower(a);
    StripLower(b);
  }

  /** Matching does not depend on whitespace around the text. */
  lemma NormalizaEstadoSpaceBlind(w1: string, v: string, w2: string)
    requires AllSpace(w1) && AllSpace(w2)
    ensures NormalizaEstado(w1 + v + w2) == NormalizaEstado(v)
  {
    StripPadded(w1, v, w2);
    if v == "" {
      assert Strip(v) == "";
    }
  }

  /** The two spellings of each state, in any case, and every other text,
      classify as documented; with `NormalizaEstadoSpaceBlind` the same
      holds with whitespace around them. */
  lemma NormalizaEstadoSynonyms(v: string)
    ensures Lower(v) == "confirmada" || Lower(v) == "confirmado" ==> NormalizaEstado(v) == Confirmada
    ensures Lower(v) == "cancelada" || Lower(v) == "cancelado" ==> NormalizaEstado(v) == Cancelada
    ensures Lower(Strip(v)) != "confirmada" && Lower(Strip(v)) != "confirmado"
            && Lower(Strip(v)) != "cancelada" && Lower(Strip(v)) != "cancelado" ==>
              NormalizaEstado(v) == Hueco
  {
    var l := Lower(v);
    if l == "confirmada" || l == "confirmado" || l == "cancelada" || l == "cancelado" {
      assert LowerChar(v[0]) == l[0] && LowerChar(v[|v| - 1]) == l[|l| - 1];
      StripNoSpaceEnds(v);
    }
  }

  /** `duracion_a_minutos`: the integer the text denotes, or the default for
      blank or non-numeric text. Negative numbers pass through. */
  function DuracionAMinutos(valor: string): int {
    if valor == "" then DefaultDuracionMin
    else
      match ParseInt(valor)
      case Some(n) => n
      case None => DefaultDuracionMin
  }

  /** A duration written as an integer reads back as that integer. */
  lemma DuracionRoundTrip(n: int)
    ensures DuracionAMinutos(IntToString(n)) == n
  {
    ParseIntToString(n);
  }

  /** A duration cell holding an optionally signed run of digits, with
      whitespace around it, reads as that integer. */
  lemma DuracionPadded(w1: string, sgn: string, d: string, w2: string)
    requires AllIntSpace(w1) && AllIntSpace(w2)
    requires sgn == "" || sgn == "+" || sgn == "-"
    requires d != [] && AllDigits(d)
    ensures var n: int := DigitsValue(d);
      DuracionAMinutos(w1 + sgn + d + w2) == if sgn == "-" then -n else n
  {
    ParseIntPadded(w1, sgn, d, w2);
  }

  /** Text with any character other than the whitespace `int()` skips, a
      sign or a digit gives the default duration. */
  lemma DuracionDefault(valor: string, i: int)
    requires 0 <= i < |valor|
    requires !IsIntSpace(valor[i]) && !IsDigit(valor[i]) && valor[i] != '+' && valor[i] != '-'
    ensures DuracionAMinutos(valor) == DefaultDuracionMin
  {
    if ParseInt(valor).Some? {
      ParseIntAlphabet(valor);
    }
  }

  /** The text `$` is matched against: Python's `$` also matches just
      before one final newline. */
  function SinSaltoFinal(hora: string): (t: string)
    ensures |t| <= |hora|
  {
    if hora != [] && hora[|hora| - 1] == '\n' then hora[..|hora| - 1] else hora
  }

  /** The shape `\d{1,2}:\d{2}` (ASCII digits). */
  predicate MatchesHora(t: string) {
    && (|t| == 4 || |t| == 5)
    && t[|t| - 3] == ':'
    && IsDigit(t[0]) && (|t| == 5 ==> IsDigit(t[1]))
    && IsDigit(t[|t| - 2]) && IsDigit(t[|t| - 1])
  }

  /** The hour field of a matching text as `int` reads it. */
  function HorasDe(t: string): nat
    requires MatchesHora(t)
  {
    if |t| == 4 then DigitValue(t[0]) else DigitValue(t[0]) * 10 + DigitValue(t[1])
  }

  /** The minute field of a matching text as `int` reads it. */
  function MinutosDe(t: string): nat
    requires MatchesHora(t)
  {
    DigitValue(t[|t| - 2]) * 10 + DigitValue(t[|t| - 1])
  }

  /** `hora_a_minutos`: hours times sixty plus minutes for `H:MM` or
      `HH:MM` (neither part range-checked, one trailing newline allowed),
      -1 for anything else. */
  function HoraAMinutos(hora: string): (m: int)
    ensures m == -1 || 0 <= m <= 99 * 60 + 99
  {
    if hora == "" then -1
    else
      var t := SinSaltoFinal(hora);
      if !MatchesHora(t) then -1
      else HorasDe(t) * 60 + MinutosDe(t)
  }

  /** Any one- or two-digit hour with a two-digit minute field parses to
      hours * 60 + minutes, the numbers `int` gives for the two fields. */
  lemma HoraClock(h: string, m: string)
    requires 1 <= |h| <= 2 && |m| == 2 && AllDigits(h) && AllDigits(m)
    ensures HoraAMinutos(h + ":" + m) == DigitsValue(h) * 60 + DigitsValue(m)
  {
    var s := h + ":" + m;
    DigitsValueShort(h);
    DigitsValueShort(m);
    if |h| == 1 {
      assert s[0] == h[0] && s[1] == ':' && s[2] == m[0] && s[3] == m[1];
      HoraCuatro(s);
    } else {
      assert s[0] == h[0] && s[1] == h[1] && s[2] == ':' && s[3] == m[0] && s[4] == m[1];
      HoraCinco(s);
    }
  }

  lemma HoraCuatro(s: string)
    requires |s| == 4 && IsDigit(s[0]) && s[1] == ':' && IsDigit(s[2]) && IsDigit(s[3])
    ensures HoraAMinutos(s) == DigitValue(s[0]) * 60 + DigitValue(s[2]) * 10 + DigitValue(s[3])
  {
    assert SinSaltoFinal(s) == s;
  }

  lemma HoraCinco(s: string)
    requires |s| == 5 && IsDigit(s[0]) && IsDigit(s[1]) && s[2] == ':' && IsDigit(s[3]) && IsDigit(s[4])
    ensures HoraAMinutos(s) == (DigitValue(s[0]) * 10 + DigitValue(s[1])) * 60 + DigitValue(s[3]) * 10 + DigitValue(s[4])
  {
    assert SinSaltoFinal(s) == s;
  }

  /** Conversely, every accepted text is such an hour and minute field,
      possibly followed by one newline. */
  lemma HoraRejects(hora: string)
    requires HoraAMinutos(hora) != -1
    ensures exists h, m ::
              && (hora == h + ":" + m || hora == h + ":" + m + "\n")
              && 1 <= |h| <= 2 && |m| == 2 && AllDigits(h) && AllDigits(m)
              && HoraAMinutos(hora) == DigitsValue(h) * 60 + DigitsValue(m)
  {
    var t := SinSaltoFinal(hora);
    var h, m := t[..|t| - 3], t[|t| - 2..];
    assert t == h + ":" + m;
    assert hora == t || hora == t + "\n";
    HoraClock(h, m);
    assert HoraAMinutos(h + ":" + m) == HoraAMinutos(hora) by {
      assert SinSaltoFinal(h + ":" + m) == t;
    }
  }

  /** Python's `f"{n:02d}"`: two zero-padded digits below 100, otherwise
      `str(n)` (a sign counts towards the width). */
  function Pad2(n: int): string {
    if 0 <= n < 100 then [DigitChar(n / 10), DigitChar(n % 10)]
    else IntToString(n)
  }

  /** The label `aplicar_retraso_manual` writes: floor division and modulo
      by sixty (Python's `//` and `%` agree with Dafny's for a positive
      divisor). */
  function FormatHora(minutos: int): string {
    Pad2(minutos / 60) + ":" + Pad2(minutos % 60)
  }

  /** The label written for a new time re-parses to exactly that time when
      it lies in [0, 6000), and is rejected otherwise (a negative time, or
      an hour field of three or more digits). */
  lemma FormatHoraRoundTrip(n: int)
    ensures HoraAMinutos(FormatHora(n)) == if 0 <= n < 6000 then n else -1
  {
    if 0 <= n < 6000 {
      FormatHoraEnRango(n);
    } else if n < 0 {
      FormatHoraNegativa(n);
    } else {
      FormatHoraLarga(n);
    }
  }

  lemma FormatHoraEnRango(n: int)
    requires 0 <= n < 6000
    ensures HoraAMinutos(FormatHora(n)) == n
  {
    var p, q := Pad2(n / 60), Pad2(n % 60);
    var s := FormatHora(n);
    assert s == p + ":" + q;
    assert SinSaltoFinal(s) == s by {
      assert s[4] == q[1];
    }
    assert s[0] == p[0] && s[1] == p[1] && s[3] == q[0] && s[4] == q[1];
  }

  lemma FormatHoraNegativa(n: int)
    requires n < 0
    ensures HoraAMinutos(FormatHora(n)) == -1
  {
    var p, q := Pad2(n / 60), Pad2(n % 60);
    var s := FormatHora(n);
    assert s == p + ":" + q;
    assert |q| == 2 && IsDigit(s[|s| - 1]);
    assert SinSaltoFinal(s) == s;
    assert p == "-" + NatToString(-(n / 60));
    assert s[0] == '-';
  }

  lemma FormatHoraLarga(n: int)
    requires n >= 6000
    ensures HoraAMinutos(FormatHora(n)) == -1
  {
    var p, q := Pad2(n / 60), Pad2(n % 60);
    var s := FormatHora(n);
    assert s == p + ":" + q;
    assert |q| == 2 && IsDigit(s[|s| - 1]);
    assert SinSaltoFinal(s) == s;
    assert |NatToString(n / 60)| >= 3;
  }
}
