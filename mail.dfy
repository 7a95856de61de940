/**
 * The parsed message as the header analysis sees it: an ordered list of
 * header fields. Only the two lookups the analysis uses are modelled,
 * `msg.get_all(name)` and `msg.get(name)`; field names compare
 * case-insensitively, as the email library compares them.
 */
module Mail {
  import opened Wrappers
  import opened Text

  datatype Field = Field(name: string, value: string)

  datatype Message = Message(fields: seq<Field>)

  predicate NameIs(f: Field, name: string) {
    Lower(f.name) == Lower(name)
  }

  /** The values of every field called `name`, in message order (see ValuesSnoc). */
  function Values(fields: seq<Field>, name: string): (vs: seq<string>)
    ensures |vs| <= |fields|
    ensures forall v :: v in vs ==> exists i :: 0 <= i < |fields| && NameIs(fields[i], name) && fields[i].value == v
    ensures vs == [] <==> forall i :: 0 <= i < |fields| ==> !NameIs(fields[i], name)
  {
    if |fields| == 0 then []
    else
      var rest := Values(fields[1..], name);
      assert forall i :: 1 <= i < |fields| ==> fields[i] == fields[1..][i - 1];
      if NameIs(fields[0], name) then [fields[0].value] + rest else rest
  }

  /** A field in front contributes its value first when it has the name. */
  lemma ValuesCons(f: Field, rest: seq<Field>, name: string)
    ensures Values([f] + rest, name) == (if NameIs(f, name) then [f.value] else []) + Values(rest, name)
  {
    assert ([f] + rest)[1..] == rest;
  }

  /**
   * Every matching field contributes its value, in message order: one more
   * field adds its value at the end exactly when it has the name.
   */
  lemma {:induction false} ValuesSnoc(fields: seq<Field>, f: Field, name: string)
    ensures Values(fields + [f], name) == Values(fields, name) + (if NameIs(f, name) then [f.value] else [])
  {
    if |fields| == 0 {
      ValuesCons(f, [], name);
      assert fields + [f] == [f] + [];
    } else {
      var x := fields[1..];
      ValuesSnoc(x, f, name);
      ValuesCons(fields[0], x + [f], name);
      ValuesCons(fields[0], x, name);
      assert fields + [f] == [fields[0]] + (x + [f]);
      assert fields == [fields[0]] + x;
    }
  }

  /** The positions of the fields called `name`. */
  function Matching(fields: seq<Field>, name: string): set<nat> {
    set i: nat | i < |fields| && NameIs(fields[i], name)
  }

  /** One more field adds its position exactly when it has the name. */
  lemma MatchingSnoc(fields: seq<Field>, name: string)
    requires |fields| > 0
    ensures var n := |fields| - 1;
      |Matching(fields, name)| == |Matching(fields[..n], name)| + if NameIs(fields[n], name) then 1 else 0
  {
    var n := |fields| - 1;
    var before := Matching(fields[..n], name);
    assert forall i :: 0 <= i < n ==> fields[i] == fields[..n][i];
    if NameIs(fields[n], name) {
      assert Matching(fields, name) == before + {n};
    } else {
      assert Matching(fields, name) == before;
    }
  }

  /** There is one value per field called `name`. */
  lemma {:induction false} ValuesCount(fields: seq<Field>, name: string)
    ensures |Values(fields, name)| == |Matching(fields, name)|
  {
    if |fields| > 0 {
      var n := |fields| - 1;
      ValuesCount(fields[..n], name);
      ValuesSnoc(fields[..n], fields[n], name);
      MatchingSnoc(fields, name);
      assert fields == fields[..n] + [fields[n]];
    } else {
      assert Matching(fields, name) == {};
    }
  }

  /** `msg.get_all(name)`: absent when the message has no such field, otherwise a non-empty list. */
  function GetAll(msg: Message, name: string): (r: Option<seq<string>>)
    ensures r.None? <==> forall i :: 0 <= i < |msg.fields| ==> !NameIs(msg.fields[i], name)
    ensures r.Some? ==> 0 < |r.value| <= |msg.fields|
  {
    var vs := Values(msg.fields, name);
    if vs == [] then None else Some(vs)
  }

  /** `msg.get(name)`: the value of the first field called `name`, if any. */
  function Get(msg: Message, name: string): (r: Option<string>)
    ensures r.None? <==> GetAll(msg, name).None?
    ensures r.Some? ==> r.value == GetAll(msg, name).value[0]
  {
    var vs := Values(msg.fields, name);
    if vs == [] then None else Some(vs[0])
  }

  /** `msg.get_all(name) or []`: every value of the fields called `name`, in message order. */
  function AllOrEmpty(msg: Message, name: string): (vs: seq<string>)
    ensures vs == [] <==> GetAll(msg, name).None?
    ensures GetAll(msg, name).Some? ==> vs == GetAll(msg, name).value
  {
    match GetAll(msg, name)
    case None => []
    case Some(vs) => vs
  }
}
