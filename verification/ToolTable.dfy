/** The registry's table of tools: registration, replacement and removal. */
module ToolTable {
  import opened Text
  import opened SchemaTree
  import opened Schema

  datatype Tool = Tool(source: string, schema: MapNode)

  /** The tool's schema is a copy of its own, fit to be stored. */
  ghost predicate Holds(tool: Tool, t: Tree)
    reads tool.schema, tool.schema.Repr
  {
    Owned(Map(tool.schema), t) && Good(t)
  }

  ghost predicate AllHold(tools: map<string, Tool>, trees: map<string, Tree>, repr: set<object>)
    reads repr
  {
    && tools.Keys == trees.Keys
    && forall n {:trigger Holds(tools[n], trees[n])} | n in tools ::
         tools[n].schema in repr && tools[n].schema.Repr <= repr && Holds(tools[n], trees[n])
  }

  lemma AllHoldMore(tools: map<string, Tool>, trees: map<string, Tree>, repr: set<object>, name: string, tool: Tool, t: Tree)
    requires AllHold(tools, trees, repr) && Holds(tool, t)
    ensures AllHold(tools[name := tool], trees[name := t], repr + tool.schema.Repr)
  {
    var tools', trees' := tools[name := tool], trees[name := t];
    forall n | n in tools'
      ensures tools'[n].schema in repr + tool.schema.Repr && tools'[n].schema.Repr <= repr + tool.schema.Repr
      ensures Holds(tools'[n], trees'[n])
    {
      if n == name { assert Holds(tools'[n], t); } else { assert Holds(tools[n], trees[n]); }
    }
  }

  lemma AllHoldLess(tools: map<string, Tool>, trees: map<string, Tree>, repr: set<object>, gone: set<string>)
    requires AllHold(tools, trees, repr)
    ensures AllHold(tools - gone, trees - gone, repr)
  {
    var tools', trees' := tools - gone, trees - gone;
    forall n | n in tools' ensures tools'[n].schema in repr && tools'[n].schema.Repr <= repr && Holds(tools'[n], trees'[n]) {
      assert Holds(tools[n], trees[n]);
    }
  }

  datatype AddError = NameAndHandlerRequired | BadSchema(error: SchemaError) | AlreadyRegistered

  class Table {
    var tools: map<string, Tool>
    ghost var Trees: map<string, Tree>   // the schema each tool is stored with
    ghost var Repr: set<object>          // every map and slice stored

    ghost predicate Valid()
      reads this, Repr
    {
      this !in Repr && AllHold(tools, Trees, Repr)
    }

    constructor ()
      ensures Valid() && Trees == map[]
    {
      tools, Trees, Repr := map[], map[], {};
    }

    /** Add: a tool is stored under its normalised schema, in objects nobody
        else holds, or the table stays as it was. */
    method Add(name: string, hasHandler: bool, source: string, input: Option<MapNode>, ghost t: Tree, ghost repr: set<object>)
      returns (err: Option<AddError>)
      requires Valid() && Given(input, t, repr)
      modifies this
      ensures Valid()
      ensures err == if name == "" || !hasHandler then Some(NameAndHandlerRequired)
                     else if Normalised(t).Err? then Some(BadSchema(Normalised(t).error))
                     else if name in old(tools) then Some(AlreadyRegistered)
                     else None
      ensures err.Some? ==> tools == old(tools) && Trees == old(Trees) && Repr == old(Repr)
      ensures err.None? ==> Stored(old(tools), old(Trees), name, source, Normalised(t).value) && fresh(tools[name].schema.Repr)
    {
      if name == "" || !hasHandler {
        return Some(NameAndHandlerRequired);
      }
      var schema := Prepare(input, t, repr);
      if schema.Err? {
        return Some(BadSchema(schema.error));
      }
      if name in tools {
        return Some(AlreadyRegistered);
      }
      Put(name, Tool(source, schema.value), Normalised(t).value);
      return None;
    }

    method Upsert(name: string, hasHandler: bool, source: string, input: Option<MapNode>, ghost t: Tree, ghost repr: set<object>)
      returns (err: Option<AddError>)
      requires Valid() && Given(input, t, repr)
      modifies this
      ensures Valid()
      ensures err == if name == "" || !hasHandler then Some(NameAndHandlerRequired)
                     else if Normalised(t).Err? then Some(BadSchema(Normalised(t).error))
                     else None
      ensures err.Some? ==> tools == old(tools) && Trees == old(Trees) && Repr == old(Repr)
      ensures err.None? ==> Stored(old(tools), old(Trees), name, source, Normalised(t).value) && fresh(tools[name].schema.Repr)
    {
      if name == "" || !hasHandler {
        return Some(NameAndHandlerRequired);
      }
      var schema := Prepare(input, t, repr);
      if schema.Err? {
        return Some(BadSchema(schema.error));
      }
      Put(name, Tool(source, schema.value), Normalised(t).value);
      return None;
    }

    ghost predicate Stored(before: map<string, Tool>, treesBefore: map<string, Tree>, name: string, source: string, t: Tree)
      reads this
    {
      && Trees == treesBefore[name := t]
      && name in tools && tools == before[name := tools[name]] && tools[name].source == source
    }

    method Put(name: string, tool: Tool, ghost t: Tree)
      requires Valid() && Holds(tool, t) && this !in tool.schema.Repr
      modifies this
      ensures Valid() && tools == old(tools)[name := tool] && Trees == old(Trees)[name := t]
    {
      AllHoldMore(tools, Trees, Repr, name, tool, t);
      tools := tools[name := tool];
      Trees := Trees[name := t];
      Repr := Repr + tool.schema.Repr;
    }

    method RemoveSource(source: string)
      requires Valid()
      modifies this
      ensures Valid()
      ensures tools == map n | n in old(tools) && old(tools)[n].source != source :: old(tools)[n]
      ensures Trees == map n | n in old(tools) && old(tools)[n].source != source :: old(Trees)[n]
    {
      var todo := tools.Keys;
      while todo != {}
        invariant Valid() && todo <= tools.Keys <= old(tools).Keys
        invariant forall n | n in tools :: tools[n] == old(tools)[n] && Trees[n] == old(Trees)[n]
        invariant forall n | n in old(tools) && n !in todo :: n in tools <==> old(tools)[n].source != source
        decreases todo
      {
        var n :| n in todo;
        todo := todo - {n};
        if tools[n].source == source {
          Drop(n);
        }
      }
    }

    method RemoveSourcePrefix(prefix: string)
      requires Valid()
      modifies this
      ensures Valid()
      ensures tools == map n | n in old(tools) && !HasPrefix(old(tools)[n].source, prefix) :: old(tools)[n]
      ensures Trees == map n | n in old(tools) && !HasPrefix(old(tools)[n].source, prefix) :: old(Trees)[n]
    {
      var todo := tools.Keys;
      while todo != {}
        invariant Valid() && todo <= tools.Keys <= old(tools).Keys
        invariant forall n | n in tools :: tools[n] == old(tools)[n] && Trees[n] == old(Trees)[n]
        invariant forall n | n in old(tools) && n !in todo :: n in tools <==> !HasPrefix(old(tools)[n].source, prefix)
        decreases todo
      {
        var n :| n in todo;
        todo := todo - {n};
        if HasPrefix(tools[n].source, prefix) {
          Drop(n);
        }
      }
    }

    method Drop(n: string)
      requires Valid()
      modifies this
      ensures Valid() && tools == old(tools) - {n} && Trees == old(Trees) - {n}
    {
      AllHoldLess(tools, Trees, Repr, {n});
      tools := tools - {n};
      Trees := Trees - {n};
    }
  }

  /** The schema a caller passes: nil, or a JSON-shaped value. */
  ghost predicate Given(input: Option<MapNode>, t: Tree, repr: set<object>)
    reads repr
  {
    match input
    case None => t == EMPTY_OBJECT
    case Some(s) => t.TMap? && Denotes(Map(s), t, repr)
  }

  /** ObjectSchema(nil, nil) */
  method NewObjectSchema() returns (s: MapNode)
    ensures fresh(s.Repr) && Owned(Map(s), EMPTY_OBJECT)
  {
    var properties := new MapNode();
    s := new MapNode();
    s.entries := map["type" := Str("object"), "properties" := Map(properties), "additionalProperties" := Other("false")];
    s.Repr := {s, properties};
    assert Owned(Map(properties), TMap(map[]));
    forall k | k in EMPTY_OBJECT.m
      ensures Node(s.entries[k]) <= {properties} && Foot(s.entries[k]) <= {properties} && Owned(s.entries[k], EMPTY_OBJECT.m[k])
      ensures k != "properties" ==> Foot(s.entries[k]) == {}
    {
      assert k == "type" || k == "properties" || k == "additionalProperties";
    }
  }

  method Prepare(input: Option<MapNode>, ghost t: Tree, ghost repr: set<object>) returns (r: Result<MapNode, SchemaError>)
    requires Given(input, t, repr)
    ensures match Normalised(t)
            case Ok(t') => r.Ok? && Owned(Map(r.value), t') && Good(t') && fresh(r.value.Repr)
            case Err(e) => r == Err(e)
  {
    NormalisedExact(t);
    match input
    case Some(s) =>
      r := RequireReasonSchema(s, t, repr);
    case None =>
      var s := NewObjectSchema();
      OwnedDenotes(Map(s), EMPTY_OBJECT, s.Repr);
      r := RequireReasonSchema(s, EMPTY_OBJECT, s.Repr);
  }

  lemma {:induction false} OwnedDenotes(v: Value, t: Tree, repr: set<object>)
    requires Owned(v, t) && Node(v) <= repr && Foot(v) <= repr
    ensures Denotes(v, t, repr)
    decreases t
  {
    match t
    case TMap(tm) =>
      forall k | k in tm ensures Denotes(v.m.entries[k], tm[k], repr) {
        OwnedDenotes(v.m.entries[k], tm[k], repr);
      }
    case TSlice(ts) =>
      forall i | 0 <= i < |ts| ensures Denotes(v.a.items[i], ts[i], repr) {
        OwnedDenotes(v.a.items[i], ts[i], repr);
      }
    case _ =>
  }
}
