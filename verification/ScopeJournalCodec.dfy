/**
 The records of the two-slot scope journal as JSON text: canonical, newline-terminated, and refused
 unless re-encoding the decoded record gives back the same bytes.
 */
module ScopeJournalCodec {
  import opened Text
  import Base64

  const BODY_LIMIT: nat := 65536
  const INT_MAX: nat := 0x7fff_ffff_ffff_ffff

  datatype Phase = Bootstrap | Complete

  /** `prior` is the digest of the target the record replaces; None when there was nothing to replace. */
  datatype Record = Record(generation: nat, intended: string, prior: Option<Hex>, phase: Phase)

  datatype Journal = TargetSync | Filter

  function PhaseName(phase: Phase): (name: string)
    ensures Plain(name)
  {
    if phase.Bootstrap? then "bootstrap" else "complete"
  }

  function PriorText(prior: Option<Hex>): (text: string)
    ensures Plain(text)
  {
    if prior.Some? then Quoted(prior.value) else "null"
  }

  function Flag(b: bool): (text: string)
    ensures Plain(text)
  {
    if b then "true" else "false"
  }

  function ParsePrior(text: string): Option<Option<Hex>> {
    if text == "null" then Some(None)
    else
      var digest := Unquoted(text);
      if digest.Some? && forall i :: 0 <= i < |digest.value| ==> IsHexDigit(digest.value[i])
      then Some(Some(digest.value)) else None
  }

  function PhaseOf(text: string): Option<Phase> {
    if text == Quoted("bootstrap") then Some(Bootstrap)
    else if text == Quoted("complete") then Some(Complete)
    else None
  }

  lemma ParseOfPrior(prior: Option<Hex>)
    ensures ParsePrior(PriorText(prior)) == Some(prior)
  {
    if prior.Some? {
      assert PriorText(prior)[0] == '"' && "null"[0] == 'n';
      assert Unquoted(Quoted(prior.value)) == Some(prior.value);
    }
  }

  lemma PhaseOfName(phase: Phase)
    ensures PhaseOf(Quoted(PhaseName(phase))) == Some(phase)
  {
    assert Quoted("bootstrap")[1] == 'b' && Quoted("complete")[1] == 'c';
  }

  predicate IsBody(s: string) {
    IsBytes(s) && 0 < |s| <= BODY_LIMIT
  }

  predicate Valid(r: Record) {
    r.generation <= INT_MAX && IsBody(r.intended)
  }

  // ---------------------------------------------------------------- documents of comma-separated fields

  /** Neither a comma nor a newline. */
  predicate Plain(s: string) {
    forall i :: 0 <= i < |s| ==> s[i] != ',' && s[i] != '\n'
  }

  function Key(name: string): string { "\"" + name + "\":" }

  function Quoted(s: string): string { "\"" + s + "\"" }

  function Unquoted(s: string): Option<string> {
    if |s| >= 2 && s[0] == '"' && s[|s| - 1] == '"' then Some(s[1..|s| - 1]) else None
  }

  /** The text after the key, if the field has that key. */
  function ValueOf(field: string, name: string): Option<string> {
    if Key(name) <= field then Some(field[|Key(name)|..]) else None
  }

  lemma FieldOf(name: string, value: string)
    requires Plain(name) && Plain(value)
    ensures Plain(Key(name) + value) && Plain(Key(name) + Quoted(value))
    ensures ValueOf(Key(name) + value, name) == Some(value)
    ensures ValueOf(Key(name) + Quoted(value), name) == Some(Quoted(value))
    ensures Unquoted(Quoted(value)) == Some(value)
  {
  }

  function Object(fields: seq<string>): string { "{" + Join(fields, ',') + "}" }

  function Document(fields: seq<string>): (text: string)
    ensures '\n' in text
  {
    Object(fields) + "\n"
  }

  function FieldsOf(bytes: string): seq<string> {
    if |bytes| < 3 then [] else Split(bytes[1..|bytes| - 2], ',')
  }

  lemma FieldsOfDocument(fields: seq<string>)
    requires |fields| >= 1
    requires forall i :: 0 <= i < |fields| ==> Plain(fields[i])
    ensures FieldsOf(Document(fields)) == fields
  {
    var text := Document(fields);
    assert text[1..|text| - 2] == Join(fields, ',');
    SplitOfJoin(fields, ',');
  }

  /** The only newline of a document is its last byte, so no document is a strict prefix of another. */
  lemma DocumentPrefix(p: string, fields: seq<string>)
    requires forall i :: 0 <= i < |fields| ==> Plain(fields[i])
    requires p < Document(fields)
    ensures '\n' !in p
  {
    JoinKeepsOut(fields, ',', '\n');
  }

  function DecimalOf(s: string): Option<nat> {
    if s != "" && forall i :: 0 <= i < |s| ==> IsDigit(s[i]) then Some(ParseDecimal(s)) else None
  }

  // ---------------------------------------------------------------- the records

  datatype Codec = Codec(hash: string -> Hex, journal: Journal) {

    function JournalName(): (name: string)
      ensures Plain(name)
    {
      if journal.TargetSync? then "target-sync" else "filter"
    }

    function Body(r: Record): seq<string>
      requires IsBytes(r.intended)
    {
      [ Key("generation") + Decimal(r.generation),
        Key("intended_body_base64") + Quoted(Base64.Encode(r.intended)),
        Key("intended_sha256") + Quoted(hash(r.intended)) ]
    }

    function Intent(r: Record): seq<string> {
      [ Key("journal") + Quoted(JournalName()),
        Key("phase") + Quoted(PhaseName(r.phase)) ]
    }

    function Prior(r: Record): seq<string> {
      [ Key("prior_target_exists") + Flag(r.prior.Some?),
        Key("prior_target_sha256") + PriorText(r.prior) ]
    }

    function Trailer(r: Record): seq<string> {
      [ Key("schema_version") + "3",
        Key("slot") + (if r.generation % 2 == 0 then "0" else "1"),
        Key("state") + Quoted("intent") ]
    }

    function Seal(r: Record): seq<string>
      requires IsBytes(r.intended)
    {
      [Key("record_sha256") + Quoted(hash(Object(Body(r) + Intent(r) + Prior(r) + Trailer(r))))]
    }

    function Fields(r: Record): seq<string>
      requires IsBytes(r.intended)
    {
      Body(r) + Intent(r) + Prior(r) + Seal(r) + Trailer(r)
    }

    /** `persistentJournalEncode` of `persistentJournalRecord` */
    function Encode(r: Record): string
      requires IsBytes(r.intended)
    {
      Document(Fields(r))
    }

    lemma NotEmpty(r: Record)
      requires IsBytes(r.intended)
      ensures |Encode(r)| > 1
    {
      hide Fields;
    }

    /** The record that four of the fields name. */
    function Candidate(fields: seq<string>): Option<Record>
      requires |fields| == 11
    {
      var generation := ValueOf(fields[0], "generation");
      var body := ValueOf(fields[1], "intended_body_base64");
      var phase := ValueOf(fields[4], "phase");
      var prior := ValueOf(fields[6], "prior_target_sha256");
      if generation.None? || body.None? || phase.None? || prior.None? then None
      else Assemble(DecimalOf(generation.value), Unquoted(body.value), PhaseOf(phase.value), ParsePrior(prior.value))
    }

    function Assemble(generation: Option<nat>, body: Option<string>, phase: Option<Phase>,
                      prior: Option<Option<Hex>>): Option<Record>
    {
      if generation.None? || body.None? || phase.None? || prior.None? then None
      else
        var intended := Base64.Decode(body.value);
        if intended.None? then None
        else Some(Record(generation.value, intended.value, prior.value, phase.value))
    }

    /** `persistentJournalDecode`: the checks on single fields are implied by the final comparison. */
    function Decode(bytes: string, slot: nat): (r: Option<Record>)
      ensures r.Some? ==> Valid(r.value) && r.value.generation % 2 == slot && Encode(r.value) == bytes
    {
      var fields := FieldsOf(bytes);
      if |fields| != 11 then None
      else
        var r := Candidate(fields);
        if r.Some? && Valid(r.value) && r.value.generation % 2 == slot && Encode(r.value) == bytes
        then r else None
    }

    lemma PlainBody(r: Record)
      requires IsBytes(r.intended)
      ensures Plain(Body(r)[0]) && Plain(Body(r)[1]) && Plain(Body(r)[2])
      ensures ValueOf(Body(r)[0], "generation") == Some(Decimal(r.generation))
      ensures ValueOf(Body(r)[1], "intended_body_base64") == Some(Quoted(Base64.Encode(r.intended)))
    {
      var text := Base64.Encode(r.intended);
      FieldOf("generation", Decimal(r.generation));
      FieldOf("intended_body_base64", text);
      FieldOf("intended_sha256", hash(r.intended));
    }

    lemma PlainIntent(r: Record)
      ensures Plain(Intent(r)[0]) && Plain(Intent(r)[1])
      ensures ValueOf(Intent(r)[1], "phase") == Some(Quoted(PhaseName(r.phase)))
    {
      FieldOf("journal", JournalName());
      FieldOf("phase", PhaseName(r.phase));
    }

    lemma PlainPrior(r: Record)
      ensures Plain(Prior(r)[0]) && Plain(Prior(r)[1])
      ensures ValueOf(Prior(r)[1], "prior_target_sha256") == Some(PriorText(r.prior))
    {
      FieldOf("prior_target_exists", Flag(r.prior.Some?));
      FieldOf("prior_target_sha256", PriorText(r.prior));
    }

    lemma PlainTrailer(r: Record)
      ensures Plain(Trailer(r)[0]) && Plain(Trailer(r)[1]) && Plain(Trailer(r)[2])
    {
      FieldOf("schema_version", "3");
      FieldOf("slot", if r.generation % 2 == 0 then "0" else "1");
      FieldOf("state", "intent");
    }

    lemma AllPlain(a: seq<string>, b: seq<string>, c: seq<string>, d: seq<string>, e: seq<string>)
      requires |a| == 3 && |b| == 2 && |c| == 2 && |d| == 1 && |e| == 3
      requires Plain(a[0]) && Plain(a[1]) && Plain(a[2]) && Plain(e[0]) && Plain(e[1]) && Plain(e[2])
      requires Plain(b[0]) && Plain(b[1]) && Plain(c[0]) && Plain(c[1]) && Plain(d[0])
      ensures forall i :: 0 <= i < 11 ==> Plain((a + b + c + d + e)[i])
    {
    }

    lemma PlainFields(r: Record)
      requires IsBytes(r.intended)
      ensures forall i :: 0 <= i < |Fields(r)| ==> Plain(Fields(r)[i])
    {
      PlainBody(r);
      PlainIntent(r);
      PlainPrior(r);
      PlainTrailer(r);
      FieldOf("record_sha256", hash(Object(Body(r) + Intent(r) + Prior(r) + Trailer(r))));
      AllPlain(Body(r), Intent(r), Prior(r), Seal(r), Trailer(r));
    }

    lemma CandidateOfFields(r: Record)
      requires IsBytes(r.intended)
      ensures Candidate(Fields(r)) == Some(r)
    {
      var f := Fields(r);
      assert f[0] == Body(r)[0] && f[1] == Body(r)[1] && f[4] == Intent(r)[1] && f[6] == Prior(r)[1];
      PlainBody(r);
      PlainIntent(r);
      PlainPrior(r);
      ParseOfDecimal(r.generation);
      Base64.DecodeOfEncode(r.intended);
      PhaseOfName(r.phase);
      ParseOfPrior(r.prior);
    }

    /** A byte string decodes exactly when it is the canonical encoding of a valid record of the slot. */
    lemma DecodeIffEncoding(bytes: string, slot: nat, r: Record)
      requires IsBytes(r.intended)
      ensures Decode(bytes, slot) == Some(r)
         <==> Valid(r) && r.generation % 2 == slot && bytes == Encode(r)
    {
      if Valid(r) && r.generation % 2 == slot && bytes == Encode(r) {
        PlainFields(r);
        FieldsOfDocument(Fields(r));
        CandidateOfFields(r);
      }
    }

    /** A rewrite that was cut short leaves bytes that no slot accepts. */
    lemma NoPrefixDecodes(p: string, r: Record, slot: nat)
      requires IsBytes(r.intended) && p < Encode(r)
      ensures Decode(p, slot) == None
    {
      PlainFields(r);
      DocumentPrefix(p, Fields(r));
    }

    /** Encodings are neither shared nor prefixes of one another. */
    lemma PrefixFree(a: Record, b: Record)
      requires Valid(a) && Valid(b) && Encode(a) <= Encode(b)
      ensures a == b
    {
      DecodeIffEncoding(Encode(a), a.generation % 2, a);
      if Encode(a) == Encode(b) {
        DecodeIffEncoding(Encode(b), a.generation % 2, b);
        DecodeIffEncoding(Encode(b), b.generation % 2, b);
        assert Candidate(FieldsOf(Encode(a))) == Some(a);
      } else {
        NoPrefixDecodes(Encode(a), b, a.generation % 2);
      }
    }

    // -------------------------------------------------------------- the completion mark

    function MarkFields(g: nat): seq<string> {
      var signed := Key("complete_generation") + Decimal(g);
      var version := Key("schema_version") + "1";
      [signed, Key("record_sha256") + Quoted(hash(Object([signed, version]))), version]
    }

    /** `persistentJournalCompletionBytes` */
    function Mark(g: nat): string { Document(MarkFields(g)) }

    /** The generation a completion mark names; None for any other bytes. */
    function MarkOf(bytes: string): (g: Option<nat>)
      ensures g.Some? ==> 2 <= g.value <= INT_MAX && bytes == Mark(g.value)
    {
      var fields := FieldsOf(bytes);
      if |fields| != 3 then None
      else
        var value := ValueOf(fields[0], "complete_generation");
        var g := if value.Some? then DecimalOf(value.value) else None;
        if g.Some? && 2 <= g.value <= INT_MAX && bytes == Mark(g.value) then g else None
    }

    lemma PlainMark(g: nat)
      ensures forall i :: 0 <= i < |MarkFields(g)| ==> Plain(MarkFields(g)[i])
    {
      var signed := [Key("complete_generation") + Decimal(g), Key("schema_version") + "1"];
      FieldOf("complete_generation", Decimal(g));
      FieldOf("record_sha256", hash(Object(signed)));
      FieldOf("schema_version", "1");
    }

    lemma MarkOfMark(g: nat)
      requires 2 <= g <= INT_MAX
      ensures MarkOf(Mark(g)) == Some(g)
    {
      PlainMark(g);
      FieldsOfDocument(MarkFields(g));
      ParseOfDecimal(g);
      assert ValueOf(MarkFields(g)[0], "complete_generation") == Some(Decimal(g));
    }

    /** No two marks are equal and none is a strict prefix of another. */
    lemma MarksPrefixFree(a: nat, b: nat)
      requires 2 <= a <= INT_MAX && 2 <= b <= INT_MAX && Mark(a) <= Mark(b)
      ensures a == b
    {
      MarkOfMark(a);
      MarkOfMark(b);
      if Mark(a) != Mark(b) {
        PlainMark(b);
        DocumentPrefix(Mark(a), MarkFields(b));
      }
    }

    /** A mark that was cut short names no generation. */
    lemma NoPrefixMarks(p: string, g: nat)
      requires p < Mark(g)
      ensures MarkOf(p) == None
    {
      PlainMark(g);
      DocumentPrefix(p, MarkFields(g));
    }
  }
}
