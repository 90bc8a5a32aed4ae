/**
 * The record store of the case-tracking form (PLANILLAS.py): records are
 * string-to-string dictionaries appended to a list, optionally enriched
 * from an external CSV table joined on a key field; the display fields and
 * the external configuration are set through guarded setters.
 */
module Planillas {
  import opened Tables
  import opened Text

  /** One row of the form or of the external CSV file: field name to text. */
  type Record = map<string, string>

  /** The fields of the entry form, in order. */
  const FIELDS: seq<string> := [
    "ID",
    "Número Caso BE/ Radicado Cia/ Control",
    "No. De Poliza",
    "NIT",
    "Nombre Grupo Económico",
    "Nombre Cliente",
    "Ramo",
    "Aseguradora",
    "Modelo de atención",
    "Director Ops",
    "Director Comercial",
    "Nombre Ejecutivo",
    "Canal recepción",
    "Tipo de Trámite",
    "Sub Tipo de Trámite",
    "Identificacion Asegurado Principal",
    "Número documento solicitante",
    "Nombre Solicitante",
    "Parentesco",
    "Fecha radicación a wtw",
    "Fecha Seguimiento 1",
    "Fecha Seguimiento 2",
    "Fecha Seguimiento 3",
    "Observaciones / Seguimiento",
    "Fecha de entrega información cliente",
    "Fecha Radicación Trámite o GBC",
    "Fecha esperada de respuesta",
    "Fecha Respuesta Aseguradora / GBC",
    "Fecha Respuesta Final al Cliente",
    "Estado del Trámite",
    "Subestado del Trámite",
    "Pendiente en Cabeza de",
    "Observación Final de Cierre",
    "Días hasta inicio del Ejecutivo",
    "Calidad respuesta Ejecutivo",
    "Días radicación a respuesta aseguradora / GBC",
    "Calidad respuesta Aseguradora / GBC",
    "Días totales del trámite",
    "Calidad del Cierre"
  ]

  /** `r.get(k, default)`. */
  function Get(r: Record, k: string, default: string): string
  {
    if k in r then r[k] else default
  }

  /** The row `next(...)` picks: the first external row whose key field equals `keyValue` (a missing key field reads as ""). */
  function FirstWithKey(data: seq<Record>, key: string, keyValue: string): (r: Option<Record>)
    ensures r.None? <==> forall i :: 0 <= i < |data| ==> Get(data[i], key, "") != keyValue
    ensures r.Some? ==> exists i :: (0 <= i < |data| && data[i] == r.value
      && Get(data[i], key, "") == keyValue
      && forall j :: 0 <= j < i ==> Get(data[j], key, "") != keyValue)
    decreases |data|
  {
    if data == [] then None
    else if Get(data[0], key, "") == keyValue then Some(data[0])
    else
      var r := FirstWithKey(data[1..], key, keyValue);
      assert r.Some? ==> exists i :: (1 <= i < |data| && data[i] == r.value
        && Get(data[i], key, "") == keyValue
        && forall j :: 1 <= j < i ==> Get(data[j], key, "") != keyValue)
      by {
        if r.Some? {
          var i :| 0 <= i < |data[1..]| && data[1..][i] == r.value
            && Get(data[1..][i], key, "") == keyValue
            && forall j :: 0 <= j < i ==> Get(data[1..][j], key, "") != keyValue;
          assert forall j :: 1 <= j < i + 1 ==> Get(data[j], key, "") != keyValue by {
            forall j | 1 <= j < i + 1
              ensures Get(data[j], key, "") != keyValue
            {
              assert data[j] == data[1..][j - 1];
            }
          }
        }
      }
      assert r.None? ==> forall i :: 1 <= i < |data| ==> Get(data[i], key, "") != keyValue by {
        if r.None? {
          forall i | 1 <= i < |data|
            ensures Get(data[i], key, "") != keyValue
          {
            assert data[i] == data[1..][i - 1];
          }
        }
      }
      r
  }

  /**
   * The `setdefault` loop of `add_record` over `fields`: each field the
   * record lacks is filled with the partner's value, or "" when the partner
   * lacks it too; a field the record has is never overwritten.
   */
  function Fill(record: Record, partner: Record, fields: seq<string>): (r: Record)
    ensures forall k :: k in r <==> k in record || k in fields
    ensures forall k :: k in record ==> r[k] == record[k]
    ensures forall k :: k in r && k !in record ==> r[k] == Get(partner, k, "")
    decreases |fields|
  {
    if fields == [] then record
    else
      var r := Fill(record, partner, fields[..|fields| - 1]);
      var f := fields[|fields| - 1];
      assert forall k :: k in fields <==> k in fields[..|fields| - 1] || k == f;
      if f in r then r else r[f := Get(partner, f, "")]
  }

  /** Whether `add_record` joins at all: external rows are loaded and a non-empty key is set. */
  predicate JoinConfigured(data: seq<Record>, key: Option<string>)
  {
    data != [] && key.Some? && key.value != ""
  }

  /**
   * The record `add_record` stores: a copy of `record`, filled from the
   * first external row whose key value equals the record's (a missing key
   * reads as ""), when the join is configured and that row is not empty.
   */
  function Joined(record: Record, data: seq<Record>, key: Option<string>, fields: seq<string>): (r: Record)
    ensures forall k :: k in record ==> k in r && r[k] == record[k]
    ensures !JoinConfigured(data, key) ==> r == record
    ensures forall k :: k in r && k !in record ==>
      && k in fields
      && JoinConfigured(data, key)
      && var m := FirstWithKey(data, key.value, Get(record, key.value, ""));
         m.Some? && r[k] == Get(m.value, k, "")
    ensures JoinConfigured(data, key) ==>
      var m := FirstWithKey(data, key.value, Get(record, key.value, ""));
      m.Some? && m.value != map[] ==> forall f :: f in fields ==> f in r
  {
    if JoinConfigured(data, key) then
      var m := FirstWithKey(data, key.value, Get(record, key.value, ""));
      if m.Some? && m.value != map[] then Fill(record, m.value, fields) else record
    else record
  }

  /** Filling fields a record already has changes nothing. */
  lemma FillComplete(record: Record, partner: Record, fields: seq<string>)
    requires forall f :: f in fields ==> f in record
    ensures Fill(record, partner, fields) == record
  {
    var r := Fill(record, partner, fields);
    assert r.Keys == record.Keys;
  }

  /**
   * Joining a stored record again changes nothing: the key value it had is
   * kept (a key field filled from the partner carries the partner's own key
   * value), so the same row matches and every field it offers is present.
   */
  lemma JoinedIdempotent(record: Record, data: seq<Record>, key: Option<string>, fields: seq<string>)
    ensures var j := Joined(record, data, key, fields);
      Joined(j, data, key, fields) == j
  {
    var j := Joined(record, data, key, fields);
    if JoinConfigured(data, key) {
      var kv := Get(record, key.value, "");
      var m := FirstWithKey(data, key.value, kv);
      if m.Some? && m.value != map[] {
        assert Get(j, key.value, "") == kv by {
          if key.value !in record && key.value in j {
            var i :| 0 <= i < |data| && data[i] == m.value && Get(data[i], key.value, "") == kv
              && forall l :: 0 <= l < i ==> Get(data[l], key.value, "") != kv;
            assert j[key.value] == Get(m.value, key.value, "");
          }
        }
        FillComplete(j, m.value, fields);
      }
    }
  }

  /**
   * The store of `DataManager`: the saved records, the fields the record
   * list shows, and the external table with its join key and the fields
   * taken from it.
   */
  class DataManager {
    var records: seq<Record>
    var displayFields: seq<string>
    var externalData: seq<Record>
    var externalKey: Option<string>
    var externalFields: seq<string>

    /** No records, the first five form fields shown, no external table. */
    constructor()
      ensures records == [] && displayFields == FIELDS[..5]
      ensures externalData == [] && externalKey == None && externalFields == []
    {
      records := [];
      displayFields := FIELDS[..5];
      externalData := [];
      externalKey := None;
      externalFields := [];
    }

    /** `add_record`: appends the joined copy of `record`; earlier records and the configuration stay as they are. */
    method AddRecord(record: Record)
      modifies this`records
      ensures records == old(records) + [Joined(record, externalData, externalKey, externalFields)]
    {
      var recordCopy := record;
      if externalData != [] && externalKey.Some? && externalKey.value != "" {
        var keyValue := Get(recordCopy, externalKey.value, "");
        var partner := FirstWithKey(externalData, externalKey.value, keyValue);
        if partner.Some? && partner.value != map[] {
          var i := 0;
          while i < |externalFields|
            invariant 0 <= i <= |externalFields|
            invariant recordCopy == Fill(record, partner.value, externalFields[..i])
          {
            var field := externalFields[i];
            assert externalFields[..i + 1][..i] == externalFields[..i];
            if field !in recordCopy {
              recordCopy := recordCopy[field := Get(partner.value, field, "")];
            }
            i := i + 1;
          }
          assert externalFields[..i] == externalFields;
        }
      }
      records := records + [recordCopy];
    }

    /** `set_display_fields`: an empty selection is ignored. */
    method SetDisplayFields(fields: seq<string>)
      modifies this`displayFields
      ensures displayFields == if fields == [] then old(displayFields) else fields
    {
      if fields != [] {
        displayFields := fields;
      }
    }

    /** `set_external_configuration`: key, fields and table replaced together. */
    method SetExternalConfiguration(keyField: string, fields: seq<string>, data: seq<Record>)
      modifies this`externalKey, this`externalFields, this`externalData
      ensures externalKey == Some(keyField) && externalFields == fields && externalData == data
    {
      externalKey := Some(keyField);
      externalFields := fields;
      externalData := data;
    }
  }

  /** The record `save_record` builds: every entry's text, stripped. */
  function FormRecord(texts: map<string, string>): (r: Record)
    ensures r.Keys == texts.Keys
    ensures forall f :: f in r ==> r[f] == Strip(texts[f])
  {
    map f | f in texts :: Strip(texts[f])
  }

  /** `any(record.values())`: some field holds a non-empty text. */
  predicate AnyFilled(record: Record)
  {
    exists f :: f in record && record[f] != ""
  }

  /** A form whose entries are all blank or whitespace is never stored. */
  lemma BlankFormRejected(texts: map<string, string>)
    requires forall f :: f in texts ==> forall k :: 0 <= k < |texts[f]| ==> IsSpace(texts[f][k])
    ensures !AnyFilled(FormRecord(texts))
  {
    forall f | f in texts
      ensures Strip(texts[f]) == ""
    {
      assert StripLeft(texts[f]) == [];
    }
  }

  /** `save_record`: a form with some non-blank entry is added; an all-blank one is refused with a warning. */
  method SaveRecord(manager: DataManager, texts: map<string, string>) returns (saved: bool)
    modifies manager`records
    ensures saved <==> AnyFilled(FormRecord(texts))
    ensures saved ==>
      manager.records == old(manager.records) + [Joined(FormRecord(texts), manager.externalData, manager.externalKey, manager.externalFields)]
    ensures !saved ==> manager.records == old(manager.records)
  {
    var record := map f | f in texts :: Strip(texts[f]);
    if !(exists f :: f in record && record[f] != "") {
      return false;
    }
    manager.AddRecord(record);
    return true;
  }

  /** The warnings `save_configuration` can show instead of saving. */
  datatype ExternalConfigError = NoExternalData | NoFieldsSelected | KeyNotFound

  /** `save_configuration`: the loaded table, a non-empty field selection and a key present in the header are required, in that order. */
  method SaveConfiguration(manager: DataManager, data: seq<Record>, selected: seq<string>, keyField: string)
    returns (r: Option<ExternalConfigError>)
    modifies manager`externalKey, manager`externalFields, manager`externalData
    ensures data == [] ==> r == Some(NoExternalData)
    ensures data != [] && selected == [] ==> r == Some(NoFieldsSelected)
    ensures data != [] && selected != [] && keyField !in data[0] ==> r == Some(KeyNotFound)
    ensures data != [] && selected != [] && keyField in data[0] ==> r == None
    ensures r.None? ==> manager.externalKey == Some(keyField) && manager.externalFields == selected && manager.externalData == data
    ensures r.Some? ==> unchanged(manager)
  {
    if data == [] {
      return Some(NoExternalData);
    }
    if selected == [] {
      return Some(NoFieldsSelected);
    }
    if keyField !in data[0] {
      return Some(KeyNotFound);
    }
    manager.SetExternalConfiguration(keyField, selected, data);
    return None;
  }
}
