# agenda-piloto: the day-agenda engine

This project models `app/services.py` of agenda-piloto, a small salon booking
backend. Each day of bookings is one worksheet of a spreadsheet. The
first row is a header. Every further row is one slot of the day,
addressed by its physical row number, with fixed columns:

| A | B | C | D | E | F | G | H | I |
|---|---|---|---|---|---|---|---|---|
| Hora | Estado | Cliente | Teléfono | Servicio | Duración | Flexibilidad | Notas | Avisada |

The engine has four parts, and the model follows that split:

- `normalize.dfy` (module `Normalize`) holds the field normalisers.
  - `normaliza_estado` maps a state text to free, confirmed or cancelled.
  - `duracion_a_minutos` reads a duration, with a default of 30.
  - `hora_a_minutos` reads an `H:MM` or `HH:MM` time as minutes since midnight, or -1.
  - The minute label `aplicar_retraso_manual` writes is modelled here too.
  - `text.dfy` (module `Text`) supplies the ASCII parts of Python's `strip`, `lower`, `int` and `str` that these rely on.
- `agenda.dfy` (module `Lectura`) is the row reader `leer_agenda`. It turns the grid into typed entries numbered from row 2, with each missing cell read as empty and the defaults applied.
- The read-only analyses work over the agenda sorted by start minute, taken as any ordering the sort may return (`ordering.dfy`):
  - `huecos.dfy`: gaps with their usable length;
  - `retrasos.dfy`: delays and possible advances between neighbouring confirmed slots;
  - `sugerencias.dfy`: flexible, not-yet-warned clients who fit a gap.
- `acciones.dfy` (module `Acciones`) holds the business actions. They write into the sheet through `update_cell`: change a state, create or edit an appointment, set the warned flag, move an appointment, shift a time by hand, and mark clients as warned.
  - The worksheet is the class `Worksheet.Sheet`. It holds the grid that `get_all_values()` returns. It offers `Cell` (`cell(r, c).value`) and the method `UpdateCell` (`update_cell(r, c, v)`).
  - Each action is a method that modifies the sheet. Its postcondition gives the new grid as a function of the old one.
  - Lemmas then state the effect of each action twice:
    - on the cells: which cells change, and to what;
    - on the agenda read back afterwards: which entry changes, how, and that no other entry changes.
- `api.dfy` (module `Api`) models the one endpoint that composes the services, `obtener_sugeridas_para_hueco` in `app/api.py`. It finds the gap record of a row and returns the suggestions for that gap's length.

Where a docstring or a name suggests more than the code does, the model follows the code:

- `detectar_huecos` measures a gap up to the next entry that is not free, which may be confirmed or cancelled; other free slots are ignored.
- The `max(0, ...)` in `detectar_huecos` never clamps, so every gap record is longer than zero minutes.
- `detectar_retrasos_y_adelantos` pairs neighbouring entries of the whole sorted list, and skips a pair unless both are confirmed. A free or cancelled slot between two confirmed ones therefore breaks the pair.
- The advance test is not an `else` of the delay test. With a negative margin, both warnings can come from one pair.
- Durations come from `int()`, so negative numbers pass through. The warned flag (column I) is read as written, without normalisation.
- `mover_cita` writes "confirmada" into the destination whatever the origin's status was. A cancelled appointment is moved as a confirmed one.
- The time pattern `^(\d{1,2}):(\d{2})$` ends in `$`, which in Python also matches just before one final newline. `HoraAMinutos` accepts that newline.
- The hour and minute fields are not range-checked, so `99:99` reads as 6039 minutes.
- gspread refuses a row number below 1 before sending anything. The model returns `Fallido(FilaInvalida(r))` with the grid unchanged. In `marcar_clientas_avisadas`, the rows before the refused one have already been written.

## Model

| member | source | states |
|---|---|---|
| Text.ParseIntToString | app/services.py:44 | `int(str(n)) == n` for every integer |
| Text.ParseIntAlphabet | app/services.py:44 | text `int()` accepts consists only of the whitespace `int()` skips, signs and digits |
| Text.ParseIntPadded | app/services.py:44 | `int()` reads an optionally signed run of digits with leading zeros and surrounding whitespace as its signed value |
| Text.StripLower | app/services.py:30 | stripping and lower-casing commute, so `strip().lower()` sees letter case only after the whitespace is gone |
| Text.StripPadded | app/services.py:30 | `strip()` ignores any whitespace added on either side |
| Normalize.NormalizaEstado | app/services.py:27-37 | the result is one of the three states, and free for the empty text |
| Normalize.NormalizaEstadoText | app/services.py:27-37 | reading back the text written for a state (`hueco`, `confirmada`, `cancelada`) gives that state |
| Normalize.NormalizaEstadoCaseBlind | app/services.py:30 | two texts equal up to letter case give the same state |
| Normalize.NormalizaEstadoSpaceBlind | app/services.py:30 | whitespace around the text does not change the state |
| Normalize.NormalizaEstadoSynonyms | app/services.py:31-37 | both spellings of confirmed and cancelled classify as such, and every other text is free |
| Normalize.DuracionRoundTrip | app/services.py:40-46 | a duration written as an integer reads back as that integer, negative ones included |
| Normalize.DuracionPadded | app/services.py:40-46 | a cell holding an optionally signed, possibly zero-led run of digits with whitespace around it reads as that integer |
| Normalize.DuracionDefault | app/services.py:40-46 | text with any character other than the whitespace `int()` skips, a sign or a digit gives the default 30 |
| Normalize.HoraAMinutos | app/services.py:49-57 | the result is -1 or lies in 0..6039 |
| Normalize.HoraClock | app/services.py:54-57 | a 1- or 2-digit hour, a colon and a 2-digit minute give hours*60 + minutes |
| Normalize.HoraCuatro | app/services.py:54-57 | the value of an accepted `H:MM` text |
| Normalize.HoraCinco | app/services.py:54-57 | the value of an accepted `HH:MM` text |
| Normalize.HoraRejects | app/services.py:49-57 | every text not read as -1 is such an hour and minute field, optionally followed by one newline |
| Normalize.FormatHoraRoundTrip | app/services.py:378-381 | the label written for minute n reads back as n when 0 <= n < 6000, and as -1 otherwise |
| Normalize.FormatHoraEnRango | app/services.py:378-381 | for 0 <= n < 6000 the label reads back as n |
| Normalize.FormatHoraNegativa | app/services.py:378-381 | for a negative n the label starts with a sign and is rejected |
| Normalize.FormatHoraLarga | app/services.py:378-381 | from 6000 on the hour field has three digits and the label is rejected |
| Worksheet.SetCell | app/services.py:114 | `update_cell`: exactly the one cell changes, and the grid grows just enough to hold it |
| Worksheet.Sheet.UpdateCell | app/services.py:114 | the sheet's grid becomes `SetCell` of the old grid |
| Lectura.LeerAgenda | app/services.py:64-102 | the loop returns `Agenda` of the sheet's grid |
| Lectura.AgendaUpToLen | app/services.py:70-74 | one entry per data row, and none without one |
| Lectura.AgendaUpToIndex | app/services.py:74-100 | position r-2 holds the entry built from sheet row r |
| Lectura.AgendaProperties | app/services.py:64-102 | empty below two rows; otherwise one entry per data row, numbered 2, 3, ... in increasing order, read from its cells; service never empty; flexibility Si or No |
| Lectura.EntradaDeFila | app/services.py:74-100 | the entry of data row r sits at position r-2 and is read from row r |
| Lectura.AgendaEn | app/services.py:74-100 | the entry at position r-2 is the one built from row r |
| Lectura.FilaUnica | app/services.py:74 | in an agenda with increasing row numbers, the row number identifies the entry |
| Lectura.AgendaFrame | app/services.py:74-100 | an entry depends only on the cells of its own row |
| Lectura.EntryOfRowFrame | app/services.py:75-99 | rows with the same cells give the same entry |
| Ordering.Insert | app/services.py:168 | insertion keeps the sequence sorted by start minute and adds exactly one entry |
| Ordering.SortByHora | app/services.py:168 | the result is an ordering of the agenda: the same entries, non-decreasing in start minute |
| Huecos.Siguientes | app/services.py:180-183 | exactly the slots that are not free and start strictly later, sorted when the frame is |
| Huecos.DetectarHuecos | app/services.py:155-204 | for some admissible sort: one record per free slot, each meeting `HuecoCorrecto`, every free slot covered, records non-decreasing in start minute |
| Huecos.HuecosDeOrdenacion | app/services.py:167-204 | for every admissible sort the records meet the specification stated over the unsorted agenda |
| Huecos.HuecoDeCorrecto | app/services.py:176-201 | a record has the slot's time and row; its length is positive and reaches exactly the earliest later start of a slot that is not free, or is 180 when none exists; it admits long services iff the length is at least 60 |
| Huecos.HuecoDeOrderIndependent | app/services.py:168-188 | how ties are ordered does not change any record |
| Huecos.CountHuecosAppend | app/services.py:172-174 | free slots of a concatenation add up |
| Huecos.CountHuecosPerm | app/services.py:168-174 | reordering the agenda keeps the number of free slots |
| Huecos.SameElements | app/services.py:168 | a reordering has the same entries |
| Huecos.HuecosEnCorrecto | app/services.py:170-204 | on a sorted frame: as many records as free slots, each correct, every free slot covered, in order |
| Huecos.HuecosPrefixCount | app/services.py:172-202 | the records of a prefix are as many as its free slots |
| Huecos.HuecosPrefix | app/services.py:172-202 | a record of a prefix is the record of one of its free slots, and conversely |
| Huecos.HuecosPrefixOrden | app/services.py:172-202 | the records of a prefix are non-decreasing in start minute |
| Retrasos.DetectarRetrasosYAdelantos | app/services.py:293-360 | for some admissible sort the warnings are those of its neighbouring pairs, and each one is justified by two confirmed slots of the agenda |
| Retrasos.RecorrerPares | app/services.py:312-358 | the loop gives the warnings of all neighbouring pairs in order, a delay before an advance |
| Retrasos.AvisosParCases | app/services.py:316-358 | a delay of fin - next iff both are confirmed and fin > next; an advance of next - fin iff both are confirmed and next - fin >= margin; with a margin >= 0 never both |
| Retrasos.AvisosEnPares | app/services.py:312-314 | a warning of the first n pairs comes from one of them, and conversely |
| Retrasos.AvisosPorDefecto | app/services.py:295-348 | with the default margin of 5 a pair gives at most one warning, an advance is of at least 5 minutes, and a slack under 5 minutes gives none |
| Retrasos.AvisosPares | app/services.py:312-314 | a warning comes from one neighbouring pair, and every warning of every pair is reported |
| Retrasos.AvisosDeOrdenacion | app/services.py:307-358 | for every admissible sort every warning is justified by the agenda |
| Retrasos.PairBrokenByGap | app/services.py:312-320 | a slot that is not confirmed silences both pairs it belongs to |
| Sugerencias.SugerirClientasParaHueco | app/services.py:256-286 | the loop returns `Sugerir` of the agenda and the gap length |
| Sugerencias.SugerirEnMiembros | app/services.py:268-284 | a suggestion is exactly a projected eligible slot; suggestions keep the agenda's order of rows |
| Sugerencias.SugerirMiembros | app/services.py:268-284 | both directions of the four filters; every suggestion fits the gap; no more suggestions than slots |
| Sugerencias.SugerirOrdenFilas | app/services.py:268-284 | on a sheet's agenda suggestions come in strictly increasing row order |
| Sugerencias.SugerirMonotono | app/services.py:275-276 | a longer gap keeps every suggestion of a shorter one |
| Acciones.AgendaTrasEscribir | app/services.py:74-100 | writing only into one data row leaves every other entry as it was |
| Acciones.CambiarEstado | app/services.py:109-114 | the normalised state text goes into column B of the row, and nothing else changes |
| Acciones.CambiarEstadoEfecto | app/services.py:109-114 | the row's entry takes the normalised state, and no other entry changes |
| Acciones.CrearCitaHoja | app/services.py:131-148 | only columns B..G of the row change; B becomes `confirmada` iff the row was free; C..G take the data with their defaults |
| Acciones.CrearCita | app/services.py:117-148 | the new grid is `CrearCitaHoja` of the old one |
| Acciones.CrearCitaEfecto | app/services.py:126-148 | a free slot becomes confirmed, and another state is kept; the data and defaults are read back; the time and the warned flag are kept; no other entry changes |
| Acciones.CambiarAvisada | app/services.py:206-212 | "Si" or "No" goes into column I, anything else as "No", and nothing else changes |
| Acciones.CambiarAvisadaEfecto | app/services.py:206-212 | the entry's warned flag becomes that value, which is Si or No, and no other entry changes |
| Acciones.EscribirFila | app/services.py:239-255 | the seven writes leave the row holding the given cells in B..G and I, and every other cell as it was |
| Acciones.DefaultsCopiados | app/services.py:234-236 | the `or` defaults applied when copying match the defaults `leer_agenda` applies |
| Acciones.MoverCitaHoja | app/services.py:239-255 | only columns B..G and I of the two rows change; on two different rows the destination holds the copied cells and the origin the cleared ones |
| Acciones.MoverCita | app/services.py:214-255 | when a check fails, the grid is unchanged and the failure is reported in check order; otherwise the destination is written and then the origin is cleared |
| Acciones.MoverCitaDistintas | app/services.py:222-230 | a move that passes the checks has two different rows, a free destination and a non-free origin |
| Acciones.FilaLeida | app/services.py:74-100 | an entry read from a row holding given cells is `Leida` of the old entry and those cells |
| Acciones.EscribirFilaEfecto | app/services.py:239-255 | writing a row changes its entry as `Leida` says, and no other entry |
| Acciones.DosFilasEfecto | app/services.py:239-255 | writing two different rows changes both entries as `Leida` says, and no other entry |
| Acciones.DatosCopiados | app/services.py:232-246 | the copied cells read back as the origin's entry, confirmed, with an empty warned flag read as "No" |
| Acciones.CamposCopiados | app/services.py:232-246 | the same, field by field |
| Acciones.DatosLimpiosLeidos | app/services.py:248-255 | the cleared cells read back as a free slot with the defaults |
| Acciones.MoverCitaDestino | app/services.py:232-246 | the destination's entry takes the origin's data, confirmed, and keeps its own time |
| Acciones.MoverCitaOrigen | app/services.py:248-255 | the origin's entry becomes a free slot with the defaults, and keeps its time |
| Acciones.MoverCitaResto | app/services.py:239-255 | no entry other than the two rows changes |
| Acciones.AplicarRetrasoManual | app/services.py:363-383 | an unreadable time fails with the grid unchanged; otherwise only the time cell changes, to the label of the old minute plus `minutos` |
| Acciones.HoraEfecto | app/services.py:383 | writing a time changes that entry's time text and minute, and no other entry |
| Acciones.RetrasoManualEfecto | app/services.py:372-383 | after the shift the entry reads back the new minute while it is below 6000 and at least 0, and -1 outside; no other entry changes |
| Acciones.PrimeraInvalida | app/services.py:412-413 | the position of the first row number gspread refuses, or the list's length |
| Acciones.MarcarClientasAvisadas | app/services.py:407-413 | the rows before the first refused one are marked; it fails on a refused row and succeeds otherwise |
| Acciones.MarcarCeldas | app/services.py:412-413 | afterwards column I reads "Si" in exactly the listed rows and every other cell is as before; order and repetition do not matter |
| Acciones.MarcarHojaLen | app/services.py:412-413 | marking rows inside the sheet keeps its size |
| Acciones.MarcarEfecto | app/services.py:407-413 | on the agenda read back, each listed data row's entry has its warned flag set to "Si" and every other entry is as it was |
| Acciones.MarcarFila | app/services.py:413 | a data row whose warned cell is set to "Si" reads back as its old entry marked as warned; an untouched row reads back unchanged |
| Acciones.MarcadasNoSugeridas | app/services.py:273 | a client just marked as warned is suggested for no gap |
| Api.ObtenerSugeridasParaHueco | app/api.py:136-149 | no suggestions when the row is not a free slot; otherwise the suggestions for that slot's correct gap length |
| Api.SugeridasDeLaFila | app/api.py:140-149 | the same, given the agenda and its gap records |
| Api.PrimerHueco | app/api.py:141 | `next(...)`: the first record of the row, or none |
| Api.SinRegistro | app/api.py:141-144 | a row without a record is not a free slot |
| Api.RegistroDeLaFila | app/api.py:141-149 | the record found by its row is the record of that row's free slot |

## Left out

- Network I/O and gspread are left out: the Google credentials, opening the spreadsheet, duplicating the template day (`app/sheets.py`). The worksheet is an in-memory grid passed in as a `Sheet`.
- A call that fails after some writes, and concurrent edits by other users, are not modelled. Only gspread's refusal of a row below 1 is modelled.
- The model stores each written value as its text (a number as its decimal text). Google Sheets' own reinterpretation of entered values (dates, times, number formats) and the sheet's size limits are left out. A write past the stored values pads the grid with empty cells.
- `UpdateCell` gives only the grid after each write, with no log of writes. The order of the writes shows in the composition only: `MoverCitaHoja` writes the destination first, then the origin. Intermediate states are not named.
- Text handling is ASCII only. `strip`, `lower` and `int` ignore Unicode whitespace, letters and digits. `int()`'s underscores between digits are not accepted.
- The regular expression's `\d` in `hora_a_minutos` also matches Unicode decimal digits, and `int()` reads them; the model accepts only ASCII digits.
- `strip()` removes the ASCII separators U+001C..U+001F but `int()` does not skip them. The model follows this: `ParseInt` fails on any text holding one, so such a duration is the default 30.
- The numeric branch of `hora_a_minutos` (`isinstance(hora, (int, float))`) is left out, because sheet values are strings.
- A missing cell (`None`) is read as "". All branches treat it the same as the empty text.
- `crear_cita`'s `duracion` is an optional integer. Conversion of other Python types by `int()` is left out.
- The pandas DataFrame is modelled as a sequence of entries with unbounded integer fields. `sort_values` is any ordering non-decreasing in start minute, and the methods use one such ordering (an insertion sort).
- Retrasos.DetectarRetrasosYAdelantos, Retrasos.AvisosParCases: the frame's 64-bit integer columns and their wrap-around are not modelled. `Hora_min` and `Duración` are numpy `int64` columns, so in `detectar_retrasos_y_adelantos` (app/services.py:322-348) the sums and differences wrap modulo 2^64. A duration of 2^63 or more makes the column `uint64` and then floating point. The model computes with mathematical integers, so it agrees with the source only while the durations and the minute sums fit in a signed 64-bit integer. For example, a duration of 9223372036854775807 reports a delay in the model and nothing in the source. Start minutes lie in -1..6039, so `detectar_huecos` is not affected. `sugerir_clientas_para_hueco` compares the Python integers of the agenda, so it is not affected either.
- `mensaje_hueco` is left out: it is text templating with nothing to prove.
- `app/main.py` (the browser UI), `app/models.py` (pydantic payloads) and the FastAPI routing and error translation of `app/api.py` are not part of this model. The only exception is the suggestions endpoint.
- From `app/settings.py` only the three defaults 30, "No" and "Servicio" are kept. The `.env` loading is left out.
- Acciones.CambiarEstadoEfecto, Acciones.CrearCitaEfecto, Acciones.CambiarAvisadaEfecto and Acciones.RetrasoManualEfecto state their effect on the agenda for data rows inside the grid only. For the header row or rows past the end, only the cell-level contracts of the methods apply.
- Acciones.MoverCitaDestino, Acciones.MoverCitaOrigen and Acciones.MoverCitaResto are stated for two different data rows inside the grid. `MoverCitaDistintas` shows that a move passing the checks always has two different rows.
- Acciones.RetrasoManualEfecto is stated for an arbitrary minute `n`. `AplicarRetrasoManual` writes the label for `n` = the old minute plus `minutos`.
