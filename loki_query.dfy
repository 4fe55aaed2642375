/**
 * The filter rewrite of the in-memory backend (lib/loki/LokiDatabaseCollection.mjs):
 * before a filter reaches the in-process store, every top-level value that has a truthy
 * `exec` member (a compiled regular expression) is replaced, in place, by `{$regex: value}`.
 */
module LokiQuery {
  import opened Wrappers

  /** The values a filter can hold, as far as the rewrite can tell them apart. */
  datatype QueryValue =
    | Regex(source: string)
    | Obj(fields: map<string, QueryValue>)
    | Arr(items: seq<QueryValue>)
    | Num(n: int)
    | Str(s: string)
    | Bool(b: bool)
    | Null
    | Undefined

  /** Reading a member of `null` or `undefined` throws a TypeError. */
  predicate Nullish(v: QueryValue)
  {
    v.Null? || v.Undefined?
  }

  predicate Truthy(v: QueryValue)
  {
    match v
    case Regex(_) => true
    case Obj(_) => true
    case Arr(_) => true
    case Num(n) => n != 0
    case Str(s) => s != ""
    case Bool(b) => b
    case Null => false
    case Undefined => false
  }

  /**
   * `v.exec` is truthy: a regular expression inherits `exec`; a plain object has it only
   * as an own field; arrays, numbers, strings and booleans have none.
   */
  predicate HasExec(v: QueryValue)
    requires !Nullish(v)
  {
    v.Regex? || (v.Obj? && "exec" in v.fields && Truthy(v.fields["exec"]))
  }

  /** The value a top-level entry holds after the rewrite. */
  function Wrap(v: QueryValue): (r: QueryValue)
    requires !Nullish(v)
    ensures !Nullish(r) && !HasExec(r)
    ensures HasExec(v) ==> r.Obj? && r.fields == map["$regex" := v]
    ensures !HasExec(v) ==> r == v
  {
    if HasExec(v) then Obj(map["$regex" := v]) else v
  }

  datatype TypeError = CannotReadExec(key: string)

  /** The entries after the rewrite, and the key whose value made it throw, if any. */
  datatype Rewrite = Rewrite(fields: map<string, QueryValue>, failedAt: Option<string>)

  /** The loop over `Object.keys(query)`: rewrite each key in order, stop at a nullish value. */
  function RewriteKeys(keys: seq<string>, fields: map<string, QueryValue>): (r: Rewrite)
    requires forall k :: k in keys ==> k in fields
    ensures r.failedAt.Some? ==> r.failedAt.value in keys && Nullish(fields[r.failedAt.value])
  {
    if keys == [] then Rewrite(fields, None)
    else
      var v := fields[keys[0]];
      if Nullish(v) then Rewrite(fields, Some(keys[0]))
      else
        RewriteKeys(keys[1..], fields[keys[0] := Wrap(v)])
  }

  /** `keys` lists each key of `fields` exactly once, as `Object.keys` does. */
  predicate KeyOrder(keys: seq<string>, fields: map<string, QueryValue>)
  {
    && (forall i, j :: 0 <= i < j < |keys| ==> keys[i] != keys[j])
    && (forall k :: k in keys ==> k in fields)
    && (forall k :: k in fields ==> k in keys)
  }

  /** The position of the first key whose value is null or undefined, or `|keys|` when none is. */
  function FirstNullish(keys: seq<string>, fields: map<string, QueryValue>): (r: nat)
    requires forall k :: k in keys ==> k in fields
    ensures r <= |keys|
    ensures forall i :: 0 <= i < r ==> !Nullish(fields[keys[i]])
    ensures r < |keys| ==> Nullish(fields[keys[r]])
  {
    if keys == [] then 0
    else if Nullish(fields[keys[0]]) then 0
    else 1 + FirstNullish(keys[1..], fields)
  }

  /** The first nullish position is determined by the values at the keys alone. */
  lemma {:induction false} FirstNullishUnique(keys: seq<string>, f: map<string, QueryValue>, g: map<string, QueryValue>)
    requires forall k :: k in keys ==> k in f && k in g && f[k] == g[k]
    ensures FirstNullish(keys, f) == FirstNullish(keys, g)
  {
    if keys != [] {
      assert keys[0] in keys;
      assert forall k :: k in keys[1..] ==> k in keys;
      FirstNullishUnique(keys[1..], f, g);
    }
  }

  lemma {:induction false} RewriteKeysPreservesKeys(keys: seq<string>, fields: map<string, QueryValue>)
    requires forall k :: k in keys ==> k in fields
    ensures RewriteKeys(keys, fields).fields.Keys == fields.Keys
  {
    if keys != [] && !Nullish(fields[keys[0]]) {
      RewriteKeysPreservesKeys(keys[1..], fields[keys[0] := Wrap(fields[keys[0]])]);
    }
  }

  /**
   * What the rewrite does to every entry: keys before the first nullish value are wrapped,
   * that key and those after it keep their values, keys not in the list are untouched; it
   * fails exactly at the first nullish value.
   */
  lemma {:induction false} RewriteKeysSpec(keys: seq<string>, fields: map<string, QueryValue>)
    requires forall i, j :: 0 <= i < j < |keys| ==> keys[i] != keys[j]
    requires forall k :: k in keys ==> k in fields
    ensures var r, n := RewriteKeys(keys, fields), FirstNullish(keys, fields);
      && r.fields.Keys == fields.Keys
      && r.failedAt == (if n < |keys| then Some(keys[n]) else None)
      && (forall i :: 0 <= i < n ==> r.fields[keys[i]] == Wrap(fields[keys[i]]))
      && (forall i :: n <= i < |keys| ==> r.fields[keys[i]] == fields[keys[i]])
      && (forall k :: k in fields && k !in keys ==> r.fields[k] == fields[k])
  {
    RewriteKeysPreservesKeys(keys, fields);
    if keys != [] && !Nullish(fields[keys[0]]) {
      var key := keys[0];
      var f' := fields[key := Wrap(fields[key])];
      var tail := keys[1..];
      assert forall i :: 0 <= i < |tail| ==> tail[i] == keys[i + 1];
      assert forall k :: k in tail ==> k in f' && k != key && f'[k] == fields[k];
      RewriteKeysSpec(tail, f');
      FirstNullishUnique(tail, f', fields);
      assert FirstNullish(keys, fields) == 1 + FirstNullish(tail, fields);
      var r, n := RewriteKeys(keys, fields), FirstNullish(keys, fields);
      assert r == RewriteKeys(tail, f');
      forall i | 0 <= i < n ensures r.fields[keys[i]] == Wrap(fields[keys[i]]) {
        if i > 0 {
          assert keys[i] == tail[i - 1];
        }
      }
      forall i | n <= i < |keys| ensures r.fields[keys[i]] == fields[keys[i]] {
        assert keys[i] == tail[i - 1];
      }
    }
  }

  /** The rewrite succeeds exactly when no top-level value is null or undefined. */
  lemma RewriteSucceedsIff(keys: seq<string>, fields: map<string, QueryValue>)
    requires KeyOrder(keys, fields)
    ensures RewriteKeys(keys, fields).failedAt.None? <==> forall k :: k in fields ==> !Nullish(fields[k])
  {
    RewriteKeysSpec(keys, fields);
    var n := FirstNullish(keys, fields);
    if n < |keys| {
      assert keys[n] in keys;
    } else {
      forall k | k in fields ensures !Nullish(fields[k]) {
        var i :| 0 <= i < |keys| && keys[i] == k;
      }
    }
  }

  /**
   * A successful rewrite leaves the same keys; a key whose value has `exec` holds
   * `{$regex: <that value>}` and every other key keeps its value.
   */
  lemma RewriteOk(keys: seq<string>, fields: map<string, QueryValue>)
    requires KeyOrder(keys, fields)
    requires RewriteKeys(keys, fields).failedAt.None?
    ensures var r := RewriteKeys(keys, fields).fields;
      && r.Keys == fields.Keys
      && forall k :: k in fields ==>
           !Nullish(fields[k]) && r[k] == (if HasExec(fields[k]) then Obj(map["$regex" := fields[k]]) else fields[k])
  {
    RewriteKeysSpec(keys, fields);
    forall k | k in fields ensures !Nullish(fields[k]) && RewriteKeys(keys, fields).fields[k] == Wrap(fields[k]) {
      var i :| 0 <= i < |keys| && keys[i] == k;
    }
  }

  /**
   * Rewriting a second time changes nothing: after a success the second pass succeeds too;
   * after a TypeError, which leaves the keys before the failing one rewritten, the second
   * pass throws at the same key and leaves the filter as the first pass left it.
   */
  lemma RewriteIdempotent(keys: seq<string>, fields: map<string, QueryValue>)
    requires KeyOrder(keys, fields)
    ensures var once := RewriteKeys(keys, fields);
      KeyOrder(keys, once.fields) && RewriteKeys(keys, once.fields) == once
  {
    var once := RewriteKeys(keys, fields);
    var n := FirstNullish(keys, fields);
    RewriteKeysSpec(keys, fields);
    assert KeyOrder(keys, once.fields);
    assert forall i :: 0 <= i < n ==> !Nullish(once.fields[keys[i]]) by {
      forall i | 0 <= i < n ensures !Nullish(once.fields[keys[i]]) {
        assert once.fields[keys[i]] == Wrap(fields[keys[i]]);
      }
    }
    assert n < |keys| ==> Nullish(once.fields[keys[n]]);
    assert FirstNullish(keys, once.fields) == n;
    RewriteKeysSpec(keys, once.fields);
    var twice := RewriteKeys(keys, once.fields);
    forall k | k in twice.fields ensures k in once.fields && twice.fields[k] == once.fields[k] {
      var i :| 0 <= i < |keys| && keys[i] == k;
      if i < n {
        assert twice.fields[k] == Wrap(Wrap(fields[k]));
      }
    }
    assert twice.fields == once.fields;
  }

  /** The rewrite looks only at top-level values: a value without `exec` is kept as it is, whatever it contains. */
  lemma RewriteTopLevelOnly(keys: seq<string>, fields: map<string, QueryValue>, k: string)
    requires KeyOrder(keys, fields)
    requires RewriteKeys(keys, fields).failedAt.None?
    requires k in fields && !Nullish(fields[k]) && !HasExec(fields[k])
    ensures k in RewriteKeys(keys, fields).fields && RewriteKeys(keys, fields).fields[k] == fields[k]
  {
    RewriteOk(keys, fields);
  }

  /** `{$or: [{name: /^H/}]}` is handed on unchanged: the regular expression is not at the top level. */
  lemma NestedRegexUnchanged()
    ensures var q := map["$or" := Arr([Obj(map["name" := Regex("^H")])])];
      RewriteKeys(["$or"], q) == Rewrite(q, None)
  {
    var q := map["$or" := Arr([Obj(map["name" := Regex("^H")])])];
    assert q["$or" := q["$or"]] == q;
  }

  /** A plain sub-document with a truthy `exec` field is wrapped like a regular expression. */
  lemma ExecFieldIsWrapped()
    ensures var v := Obj(map["exec" := Num(1)]);
      RewriteKeys(["a"], map["a" := v]) == Rewrite(map["a" := Obj(map["$regex" := v])], None)
  {
  }

  /** An object as lib/loki/LokiDatabaseCollection.mjs receives it: its keys in order and its entries. */
  class QueryObject {
    var keys: seq<string>
    var fields: map<string, QueryValue>

    ghost predicate Valid()
      reads this
    {
      KeyOrder(keys, fields)
    }

    constructor (keys: seq<string>, fields: map<string, QueryValue>)
      requires KeyOrder(keys, fields)
      ensures Valid() && this.keys == keys && this.fields == fields
    {
      this.keys := keys;
      this.fields := fields;
    }
  }

  /** The in-memory collection; `find` and `findOne` stand for the in-process store's lookups. */
  class LokiDatabaseCollection<D> {
    const find: map<string, QueryValue> -> seq<D>
    const findOne: map<string, QueryValue> -> Option<D>

    constructor (find: map<string, QueryValue> -> seq<D>, findOne: map<string, QueryValue> -> Option<D>)
      ensures this.find == find && this.findOne == findOne
    {
      this.find := find;
      this.findOne := findOne;
    }

    /**
     * `transformQuery`: rewrites `query` in place and returns the same object, or throws
     * at the first key whose value is null or undefined, after the keys before it have
     * been rewritten.
     */
    method TransformQuery(query: QueryObject) returns (r: Result<QueryObject, TypeError>)
      requires query.Valid()
      modifies query
      ensures query.Valid() && query.keys == old(query.keys)
      ensures var w := RewriteKeys(old(query.keys), old(query.fields));
        && query.fields == w.fields
        && r == if w.failedAt.None? then Ok(query) else Err(CannotReadExec(w.failedAt.value))
    {
      ghost var w := RewriteKeys(query.keys, query.fields);
      RewriteKeysPreservesKeys(query.keys, query.fields);
      var i := 0;
      while i < |query.keys|
        invariant 0 <= i <= |query.keys|
        invariant query.keys == old(query.keys)
        invariant query.fields.Keys == old(query.fields).Keys
        invariant RewriteKeys(query.keys[i..], query.fields) == w
      {
        var key := query.keys[i];
        assert query.keys[i..][0] == key && query.keys[i..][1..] == query.keys[i + 1..];
        var v := query.fields[key];
        if Nullish(v) {
          return Err(CannotReadExec(key));
        }
        if HasExec(v) {
          query.fields := query.fields[key := Obj(map["$regex" := v])];
        } else {
          assert query.fields[key := v] == query.fields;
        }
        i := i + 1;
      }
      r := Ok(query);
    }

    /** `findDocument`: the filter is rewritten at once and handed to `findOne`. */
    method FindDocument(query: QueryObject) returns (r: Result<Option<D>, TypeError>)
      requires query.Valid()
      modifies query
      ensures query.Valid() && query.keys == old(query.keys)
      ensures var w := RewriteKeys(old(query.keys), old(query.fields));
        && query.fields == w.fields
        && r == if w.failedAt.None? then Ok(findOne(w.fields)) else Err(CannotReadExec(w.failedAt.value))
    {
      var t := TransformQuery(query);
      match t
      case Ok(q) => r := Ok(findOne(q.fields));
      case Err(e) => r := Err(e);
    }

    /** `findDocuments`: nothing happens to the filter until the result's `ToArray` runs. */
    method FindDocuments(query: QueryObject) returns (p: PendingFind<D>)
      ensures fresh(p) && p.collection == this && p.query == query
    {
      p := new PendingFind(this, query);
    }
  }

  /** The `{toArray}` object `findDocuments` returns. */
  class PendingFind<D> {
    const collection: LokiDatabaseCollection<D>
    const query: QueryObject

    constructor (collection: LokiDatabaseCollection<D>, query: QueryObject)
      ensures this.collection == collection && this.query == query
    {
      this.collection := collection;
      this.query := query;
    }

    /** Rewrites the filter now and hands it to `find`. */
    method ToArray() returns (r: Result<seq<D>, TypeError>)
      requires query.Valid()
      modifies query
      ensures query.Valid() && query.keys == old(query.keys)
      ensures var w := RewriteKeys(old(query.keys), old(query.fields));
        && query.fields == w.fields
        && r == if w.failedAt.None? then Ok(collection.find(w.fields)) else Err(CannotReadExec(w.failedAt.value))
    {
      var t := collection.TransformQuery(query);
      match t
      case Ok(q) => r := Ok(collection.find(q.fields));
      case Err(e) => r := Err(e);
    }
  }
}
