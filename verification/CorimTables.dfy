/**
 The name tables of rats/appraise.py read both ways: no two names of a table are spelled
 alike, so a list of names and a list of labels say the same.
 */
module CorimTables {
  import opened Bytes
  import Cbor
  import opened Corim

  /** The label of the name a spelling can only be, by its length and at most two of its letters. */
  function Reread(t: Table, u: seq<byte>): int {
    var n := |u|;
    match t
    case UnsignedCorim => if n == 8 then 0 else if n == 10 then 1 else if n == 20 then 2 else 3
    case ConciseMid =>
      if n == 14 then 0 else if n == 18 then 1 else if n == 12 then 2
      else if n == 17 then 3 else 4
    case TagIdentity => if n == 12 then 0 else 1
    case Entity => if n == 17 then 0 else if n == 12 then 1 else 2
    case Triples =>
      if n == 23 then 0 else if n == 24 then 3
      else if n > 6 && u[6] == 'e' as int then 1 else 2
    case Environment =>
      if n == 14 then 1 else if n > 6 && u[6] == 'c' as int then 0 else 2
    case Class =>
      if n == 14 then 0 else if n == 12 then 1
      else if n > 6 && u[6] == 'm' as int then 2 else if n > 6 && u[6] == 'l' as int then 3
      else 4
    case Measurement => if n > 7 && u[7] == 'k' as int then 0 else 1
    case MeasurementValue =>
      if n == 9 then (if u[6] == 'v' as int then 0 else 1)
      else if n == 13 then (if u[6] == 'd' as int then 2 else 7)
      else if n == 11 then 3
      else if n == 15 then 4
      else if n == 20 then 5
      else if n == 14 then 6
      else if n == 19 then 8
      else if n > 7 && u[6] == 'n' as int then 11
      else if n > 7 && u[7] == 'e' as int then 9
      else 10
    case Role => if n == 17 then 0 else if n == 13 then 1 else 2
    case Hash =>
      if n > 3 && u[3] == '2' as int then 1 else if n > 3 && u[3] == '3' as int then 7 else 8
  }

  lemma {:induction false} RereadsUnsignedCorim(number: int)
    requires Has(UnsignedCorim, number)
    ensures Reread(UnsignedCorim, Ascii(UnsignedCorimWord(number))) == number
  {
  }

  lemma {:induction false} RereadsConciseMid(number: int)
    requires Has(ConciseMid, number)
    ensures Reread(ConciseMid, Ascii(ConciseMidWord(number))) == number
  {
  }

  lemma {:induction false} RereadsTagIdentity(number: int)
    requires Has(TagIdentity, number)
    ensures Reread(TagIdentity, Ascii(TagIdentityWord(number))) == number
  {
  }

  lemma {:induction false} RereadsEntity(number: int)
    requires Has(Entity, number)
    ensures Reread(Entity, Ascii(EntityWord(number))) == number
  {
  }

  lemma {:induction false} RereadsTriples(number: int)
    requires Has(Triples, number)
    ensures Reread(Triples, Ascii(TriplesWord(number))) == number
  {
  }

  lemma {:induction false} RereadsEnvironment(number: int)
    requires Has(Environment, number)
    ensures Reread(Environment, Ascii(EnvironmentWord(number))) == number
  {
  }

  lemma {:induction false} RereadsClass(number: int)
    requires Has(Class, number)
    ensures Reread(Class, Ascii(ClassWord(number))) == number
  {
  }

  lemma {:induction false} RereadsMeasurement(number: int)
    requires Has(Measurement, number)
    ensures Reread(Measurement, Ascii(MeasurementWord(number))) == number
  {
  }

  lemma {:induction false} RereadsRole(number: int)
    requires Has(Role, number)
    ensures Reread(Role, Ascii(RoleWord(number))) == number
  {
  }

  lemma {:induction false} RereadsHash(number: int)
    requires Has(Hash, number)
    ensures Reread(Hash, Ascii(HashWord(number))) == number
  {
  }

  lemma {:induction false} RereadsMeasurementValue(number: int)
    requires Has(MeasurementValue, number)
    ensures Reread(MeasurementValue, Ascii(MeasurementValueWord(number))) == number
  {
    hide Reread, Ascii, MeasurementValueWord;
    if number < 6 {
      RereadsFirstValues(number);
    } else {
      RereadsLastValues(number);
    }
  }

  lemma {:induction false} RereadsFirstValues(number: int)
    requires 0 <= number < 6
    ensures Reread(MeasurementValue, Ascii(MeasurementValueWord(number))) == number
  {
  }

  lemma {:induction false} RereadsLastValues(number: int)
    requires 6 <= number < MOST_LABELS
    ensures Reread(MeasurementValue, Ascii(MeasurementValueWord(number))) == number
  {
  }

  lemma {:induction false} RereadsWord(t: Table, number: int)
    requires Has(t, number)
    ensures Reread(t, Ascii(Word(t, number))) == number
  {
    hide Reread, Ascii, UnsignedCorimWord, ConciseMidWord, TagIdentityWord, EntityWord, TriplesWord, EnvironmentWord,
         ClassWord, MeasurementWord, MeasurementValueWord, RoleWord, HashWord;
    match t
    case UnsignedCorim => RereadsUnsignedCorim(number);
    case ConciseMid => RereadsConciseMid(number);
    case TagIdentity => RereadsTagIdentity(number);
    case Entity => RereadsEntity(number);
    case Triples => RereadsTriples(number);
    case Environment => RereadsEnvironment(number);
    case Class => RereadsClass(number);
    case Measurement => RereadsMeasurement(number);
    case MeasurementValue => RereadsMeasurementValue(number);
    case Role => RereadsRole(number);
    case Hash => RereadsHash(number);
  }

  lemma {:induction false} SpelledExactly(t: Table, number: nat, text: seq<byte>)
    ensures var r := Spelled(t, number, text);
            && (r.Some? ==> Has(t, r.value) && Ascii(Word(t, r.value)) == text)
            && (r.None? ==> forall k :: number <= k < MOST_LABELS && Has(t, k) ==> Ascii(Word(t, k)) != text)
    decreases MOST_LABELS - number
  {
    hide Ascii, Word, Has;
    if number < MOST_LABELS {
      SpelledExactly(t, number + 1, text);
    }
  }

  lemma {:induction false} LabelsAreSmall(t: Table, number: int)
    requires Has(t, number)
    ensures 0 <= number < MOST_LABELS
  {
  }

  /** The label a string has in a table is that of the one name it spells. */
  lemma {:induction false} SpellingsInvert(t: Table, text: seq<byte>, number: int)
    ensures TextLabel(t, text) == Some(number) <==> Has(t, number) && Ascii(Word(t, number)) == text
  {
    hide Ascii, Word, Reread, Spelled, Has;
    SpelledExactly(t, 0, text);
    if Has(t, number) && Ascii(Word(t, number)) == text {
      var found := Spelled(t, 0, text);
      LabelsAreSmall(t, number);
      RereadsWord(t, number);
      RereadsWord(t, found.value);
    }
  }

  /** A name of the key's own table has that table's label, and the label leads back to it. */
  lemma {:induction false} OwnLabel(key: Name, t: Table, n: Name, number: int)
    requires LogicMap(key) == Some(t) && Label(t, n) == Some(number)
    ensures LabelUnder(key, n) == Some(number)
    ensures NameUnder(Some(t), Cbor.Int(number)) == Some(n)
  {
    hide LogicMap;
  }

  /** The names of a measurement are not in the table a reference triple looks at first. */
  lemma {:induction false} TripleLabels()
    ensures LabelUnder(COMID_REFERENCE_TRIPLES, COMID_MKEY) == Some(0)
    ensures LabelUnder(COMID_REFERENCE_TRIPLES, COMID_MVAL) == Some(1)
    ensures NameUnder(Some(Environment), Cbor.Int(0)) == Some(COMID_CLASS)
    ensures NameUnder(Some(Environment), Cbor.Int(1)) == Some(COMID_INSTANCE)
    ensures NameUnder(Some(Measurement), Cbor.Int(1)) == Some(COMID_MVAL)
  {
  }
}
