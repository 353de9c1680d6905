/**
  A model of `OrderField`, a positive-integer model field that fills in an
  "order" number just before a record is saved.

  The rows that already exist for the model are given as a sequence of
  `Record`s (the database query is a parameter, not I/O).  The instance about
  to be saved is an object whose order slot is the only thing the hook writes.
  The order column is assumed to be the field named `order`: the hook selects
  the latest row by the field's own name but reads the hard-coded `order`
  attribute of that row, and the two agree only under this assumption.
 */
module Fields {

  datatype Option<T> = None | Some(value: T)

  datatype Result<T, E> = Ok(value: T) | Err(error: E)

  /**
    Why reading a scope field off the instance fails.  `MissingAttribute`: the
    name is not an attribute of the instance at all (a plain attribute error,
    which the hook lets escape).  `RelatedDoesNotExist`: the name is a required
    foreign key that has not been set (a "does not exist" error, which the
    hook catches and answers with 0).
   */
  datatype Error = MissingAttribute(name: string) | RelatedDoesNotExist(name: string)

  /**
    A column value as the database compares it.  `Null` is an empty nullable
    column, `Ref` a foreign key compared by primary key, and `Unset` a required
    foreign key the instance has not been given yet: reading it raises.
   */
  datatype Value = Null | Int(i: int) | Str(s: string) | Ref(pk: nat) | Unset

  /** Reading `f` off the instance gives a value rather than raising. */
  predicate Readable(attrs: map<string, Value>, f: string)
  {
    f in attrs && attrs[f] != Unset
  }

  /** A stored row: its ordinary columns and its order number. */
  datatype Record = Record(fields: map<string, Value>, order: nat)

  /** An equality filter, as passed to `filter(**query)`: field name to required value. */
  type Query = map<string, Value>

  /** `if self.for_fields:` — a missing list and an empty list both mean "no scope". */
  predicate ScopeActive(forFields: Option<seq<string>>)
  {
    forFields.Some? && |forFields.value| > 0
  }

  /** A row passes the filter when it carries every queried field with the queried value. */
  predicate Matches(r: Record, q: Query)
  {
    forall f :: f in q ==> f in r.fields && r.fields[f] == q[f]
  }

  /**
    The dict comprehension that reads each scope field off the instance.  The
    fields are read front to back and the first one that cannot be read stops
    the comprehension: a name that is not an attribute gives
    `MissingAttribute`, an unset required foreign key `RelatedDoesNotExist`.
   */
  function BuildQuery(fields: seq<string>, attrs: map<string, Value>): (r: Result<Query, Error>)
    ensures r.Ok? <==> forall i :: 0 <= i < |fields| ==> Readable(attrs, fields[i])
    ensures r.Ok? ==> forall f :: f in r.value <==> f in fields
    ensures r.Ok? ==> forall f :: f in r.value ==> f in attrs && r.value[f] == attrs[f]
    ensures r.Err? ==> exists i :: 0 <= i < |fields| && fields[i] == r.error.name && !Readable(attrs, fields[i]) &&
                                   (r.error.MissingAttribute? <==> fields[i] !in attrs) &&
                                   forall j :: 0 <= j < i ==> Readable(attrs, fields[j])
  {
    if |fields| == 0 then Ok(map[])
    else if fields[0] !in attrs then Err(MissingAttribute(fields[0]))
    else if attrs[fields[0]] == Unset then Err(RelatedDoesNotExist(fields[0]))
    else match BuildQuery(fields[1..], attrs)
      case Err(e) => Err(e)
      case Ok(q) => Ok(q[fields[0] := attrs[fields[0]]])
  }

  /** The filter the hook applies: none when the scope is inactive, else one built from the instance. */
  function ScopeQuery(forFields: Option<seq<string>>, attrs: map<string, Value>): (r: Result<Query, Error>)
    ensures !ScopeActive(forFields) ==> r == Ok(map[])
    ensures ScopeActive(forFields) ==>
              (r.Ok? <==> forall i :: 0 <= i < |forFields.value| ==> Readable(attrs, forFields.value[i]))
    ensures ScopeActive(forFields) && r.Ok? ==> forall f :: f in r.value <==> f in forFields.value
    ensures r.Ok? ==> forall f :: f in r.value ==> f in attrs && r.value[f] == attrs[f]
    ensures r.Err? ==> ScopeActive(forFields)
    ensures r.Err? ==> exists i :: 0 <= i < |forFields.value| && forFields.value[i] == r.error.name &&
                                   !Readable(attrs, forFields.value[i]) &&
                                   (r.error.MissingAttribute? <==> forFields.value[i] !in attrs) &&
                                   forall j :: 0 <= j < i ==> Readable(attrs, forFields.value[j])
  {
    if ScopeActive(forFields) then BuildQuery(forFields.value, attrs) else Ok(map[])
  }

  /**
    The rows that take part: those passing the filter, in table order
    (`OrderProperties.ScopeMembers` states which rows these are).
   */
  function Scope(table: seq<Record>, q: Query): (s: seq<Record>)
    ensures |s| <= |table|
  {
    if |table| == 0 then []
    else
      var rest := Scope(table[..|table| - 1], q);
      if Matches(table[|table| - 1], q) then rest + [table[|table| - 1]] else rest
  }

  /**
    The order of the latest row, as `latest('order').order`; `None` stands for
    the "does not exist" raised on an empty set.
   */
  function MaxOrder(rs: seq<Record>): (m: Option<nat>)
    ensures m.None? <==> |rs| == 0
    ensures m.Some? ==> forall i :: 0 <= i < |rs| ==> rs[i].order <= m.value
    ensures m.Some? ==> exists i :: 0 <= i < |rs| && rs[i].order == m.value
  {
    if |rs| == 0 then None
    else
      var last := rs[|rs| - 1].order;
      match MaxOrder(rs[..|rs| - 1])
      case None => Some(last)
      case Some(m) => Some(if m < last then last else m)
  }

  /**
    The number the hook assigns to an instance with no order yet: one more than
    the largest order in its scope, or 0 when the scope is empty or a scope
    field is an unset foreign key (both "does not exist", both caught).
   */
  function NextOrder(table: seq<Record>, forFields: Option<seq<string>>, attrs: map<string, Value>): (r: Result<nat, Error>)
    ensures r.Err? <==> ScopeQuery(forFields, attrs).Err? && ScopeQuery(forFields, attrs).error.MissingAttribute?
    ensures r.Err? ==> r.error == ScopeQuery(forFields, attrs).error
    ensures ScopeQuery(forFields, attrs).Err? && ScopeQuery(forFields, attrs).error.RelatedDoesNotExist? ==> r == Ok(0)
    ensures ScopeQuery(forFields, attrs).Ok? ==>
              var s := Scope(table, ScopeQuery(forFields, attrs).value);
              && r.Ok?
              && (r.value == 0 <==> |s| == 0)
              && (forall i :: 0 <= i < |s| ==> s[i].order < r.value)
              && (|s| > 0 ==> exists i :: 0 <= i < |s| && s[i].order + 1 == r.value)
  {
    match ScopeQuery(forFields, attrs)
    case Err(MissingAttribute(name)) => Err(MissingAttribute(name))
    case Err(RelatedDoesNotExist(_)) => Ok(0)
    case Ok(q) =>
      match MaxOrder(Scope(table, q))
      case None => Ok(0)
      case Some(m) => Ok(m + 1)
  }

  /** The in-memory object being saved: its other attributes and its order slot (None when unset). */
  class ModelInstance {
    var attrs: map<string, Value>
    var order: Option<nat>

    constructor (attrs: map<string, Value>, order: Option<nat>)
      ensures this.attrs == attrs && this.order == order
    {
      this.attrs := attrs;
      this.order := order;
    }
  }

  class OrderField {
    /** The scope fields; `None` when the field was declared without them. */
    const forFields: Option<seq<string>>

    constructor (forFields: Option<seq<string>>)
      ensures this.forFields == forFields
    {
      this.forFields := forFields;
    }

    /**
      The pre-save hook.  `table` is the model's existing rows.  The `add` flag
      (insert or update) is accepted and ignored: only an unset order matters.
     */
    method PreSave(inst: ModelInstance, add: bool, table: seq<Record>) returns (r: Result<nat, Error>)
      modifies inst`order
      ensures old(inst.order).Some? ==> r == Ok(old(inst.order).value) && inst.order == old(inst.order)
      ensures old(inst.order).None? ==> r == NextOrder(table, forFields, inst.attrs)
      ensures r.Ok? ==> inst.order == Some(r.value)
      ensures r.Err? ==> inst.order == old(inst.order)
    {
      if inst.order.None? {
        var q := ScopeQuery(forFields, inst.attrs);
        var value: nat;
        if q.Err? && q.error.MissingAttribute? {
          return Err(q.error);
        } else if q.Err? {
          value := 0;
        } else {
          var latest := MaxOrder(Scope(table, q.value));
          value := if latest.None? then 0 else latest.value + 1;
        }
        inst.order := Some(value);
        r := Ok(value);
      } else {
        r := Ok(inst.order.value);
      }
    }
  }
}
