/**
 The table context of the fuzz tests: what `alter` does to the columns, the
 primary key indices and the table options of a table.
 */
module TableContext {
  import opened Option

  datatype Ident = Ident(value: string, quote: Option<char>)

  /** `Ident::to_string`. */
  function Shown(i: Ident): string {
    if i.quote.Some? then [i.quote.value] + i.value + [i.quote.value] else i.value
  }

  datatype ColumnOption =
    | Null
    | NotNull
    | DefaultValue(value: string)
    | DefaultFn(text: string)
    | TimeIndex
    | PrimaryKey

  datatype Column = Column(name: Ident, ty: string, options: seq<ColumnOption>)

  /** An option of any kind; its kind determines its key. */
  datatype TableOption = TableOption(key: string, value: string)

  datatype Location = First | After(columnName: string)

  datatype Operation =
    | AddColumn(column: Column, location: Option<Location>)
    | DropColumn(name: Ident)
    | RenameTable(newName: Ident)
    | ModifyDataType(column: Column)
    | SetTableOptions(options: seq<TableOption>)
    | UnsetTableOptions(keys: seq<string>)

  datatype Context = Context(name: Ident, columns: seq<Column>, primaryKeys: seq<nat>, options: seq<TableOption>)

  /** Casting a default value to a new column type; `alter` panics where it fails. */
  type Cast = (string, string) -> Option<string>

  // ---------- The operations ----------

  predicate IsPrimaryKey(c: Column) {
    PrimaryKey in c.options
  }

  /** The indices of the primary key columns, in order. */
  function KeyIndices(columns: seq<Column>): seq<nat> {
    if columns == [] then []
    else
      var n := |columns| - 1;
      KeyIndices(columns[..n]) + (if IsPrimaryKey(columns[n]) then [n] else [])
  }

  /** The first column shown under this name. */
  function PositionShown(columns: seq<Column>, name: string): (r: Option<nat>)
    ensures r.Some? ==> r.value < |columns| && Shown(columns[r.value].name) == name
    ensures r.Some? ==> forall i :: 0 <= i < r.value ==> Shown(columns[i].name) != name
    ensures r.None? ==> forall i :: 0 <= i < |columns| ==> Shown(columns[i].name) != name
  {
    if columns == [] then None
    else if Shown(columns[0].name) == name then Some(0)
    else
      var rest := PositionShown(columns[1..], name);
      if rest.None? then None else Some(rest.value + 1)
  }

  /** The place where a new column goes. */
  function Place(columns: seq<Column>, location: Option<Location>): (r: Option<nat>)
    ensures r.Some? ==> r.value <= |columns|
  {
    match location
    case None => Some(|columns|)
    case Some(First) => Some(0)
    case Some(After(name)) =>
      var i := PositionShown(columns, name);
      if i.None? then None else Some(i.value + 1)
  }

  function InsertAt<T>(s: seq<T>, i: nat, x: T): seq<T>
    requires i <= |s|
  {
    s[..i] + [x] + s[i..]
  }

  /** `retain`: the columns with another name, in order. */
  function WithoutColumn(columns: seq<Column>, name: Ident): seq<Column> {
    if columns == [] then []
    else
      var n := |columns| - 1;
      WithoutColumn(columns[..n], name) + (if columns[n].name == name then [] else [columns[n]])
  }

  function CastOptions(cast: Cast, options: seq<ColumnOption>, ty: string): Option<seq<ColumnOption>> {
    if options == [] then Some([])
    else
      var n := |options| - 1;
      var init, last := CastOptions(cast, options[..n], ty), options[n];
      if init.None? then None
      else if !last.DefaultValue? then Some(init.value + [last])
      else
        var v := cast(last.value, ty);
        if v.None? then None else Some(init.value + [DefaultValue(v.value)])
  }

  function Position(columns: seq<Column>, name: Ident): (r: Option<nat>)
    ensures r.Some? ==> r.value < |columns| && columns[r.value].name == name
    ensures r.Some? ==> forall i :: 0 <= i < r.value ==> columns[i].name != name
    ensures r.None? ==> forall i :: 0 <= i < |columns| ==> columns[i].name != name
  {
    if columns == [] then None
    else if columns[0].name == name then Some(0)
    else
      var rest := Position(columns[1..], name);
      if rest.None? then None else Some(rest.value + 1)
  }

  function Modified(cast: Cast, columns: seq<Column>, column: Column): Option<seq<Column>> {
    var i := Position(columns, column.name);
    if i.None? then Some(columns)
    else
      var options := CastOptions(cast, columns[i.value].options, column.ty);
      if options.None? then None
      else Some(columns[i.value := columns[i.value].(ty := column.ty, options := options.value)])
  }

  function OptionPosition(options: seq<TableOption>, key: string): (r: Option<nat>)
    ensures r.Some? ==> r.value < |options| && options[r.value].key == key
    ensures r.None? ==> forall i :: 0 <= i < |options| ==> options[i].key != key
  {
    if options == [] then None
    else if options[0].key == key then Some(0)
    else
      var rest := OptionPosition(options[1..], key);
      if rest.None? then None else Some(rest.value + 1)
  }

  function SetOption(options: seq<TableOption>, o: TableOption): seq<TableOption> {
    var i := OptionPosition(options, o.key);
    if i.Some? then options[i.value := o] else options + [o]
  }

  function SetOptions(options: seq<TableOption>, new_: seq<TableOption>): seq<TableOption> {
    if new_ == [] then options else SetOption(SetOptions(options, new_[..|new_| - 1]), new_[|new_| - 1])
  }

  function WithoutKeys(options: seq<TableOption>, keys: seq<string>): seq<TableOption> {
    if options == [] then []
    else
      var n := |options| - 1;
      WithoutKeys(options[..n], keys) + (if options[n].key in keys then [] else [options[n]])
  }

  /** `alter`: the new context, or `None` for an error or a panic. */
  function Altered(cast: Cast, t: Context, op: Operation): Option<Context> {
    match op
    case AddColumn(column, location) =>
      if exists i :: 0 <= i < |t.columns| && t.columns[i].name == column.name then None
      else
        var place := Place(t.columns, location);
        if place.None? then None
        else
          var columns := InsertAt(t.columns, place.value, column);
          Some(t.(columns := columns, primaryKeys := KeyIndices(columns)))
    case DropColumn(name) =>
      var columns := WithoutColumn(t.columns, name);
      Some(t.(columns := columns, primaryKeys := KeyIndices(columns)))
    case RenameTable(newName) => if newName == t.name then None else Some(t.(name := newName))
    case ModifyDataType(column) =>
      var columns := Modified(cast, t.columns, column);
      if columns.None? then None else Some(t.(columns := columns.value))
    case SetTableOptions(options) => Some(t.(options := SetOptions(t.options, options)))
    case UnsetTableOptions(keys) => Some(t.(options := WithoutKeys(t.options, keys)))
  }

  // ---------- What every operation keeps ----------

  predicate DistinctNames(columns: seq<Column>) {
    forall i, j :: 0 <= i < j < |columns| ==> columns[i].name != columns[j].name
  }

  predicate DistinctKeys(options: seq<TableOption>) {
    forall i, j :: 0 <= i < j < |options| ==> options[i].key != options[j].key
  }

  /** The strictly increasing list of exactly the indices of the primary key columns. */
  predicate ExactKeys(columns: seq<Column>, keys: seq<nat>) {
    && (forall i, j :: 0 <= i < j < |keys| ==> keys[i] < keys[j])
    && (forall i :: 0 <= i < |keys| ==> keys[i] < |columns| && IsPrimaryKey(columns[keys[i]]))
    && (forall k :: 0 <= k < |columns| && IsPrimaryKey(columns[k]) ==> k in keys)
  }

  predicate WellFormed(t: Context) {
    DistinctNames(t.columns) && ExactKeys(t.columns, t.primaryKeys) && DistinctKeys(t.options)
  }

  lemma {:induction false} KeyIndicesExact(columns: seq<Column>)
    ensures ExactKeys(columns, KeyIndices(columns))
  {
    if columns == [] {
    } else {
      var n := |columns| - 1;
      KeyIndicesExact(columns[..n]);
      ExactKeysNext(columns, KeyIndices(columns[..n]));
    }
  }

  lemma ExactKeysNext(columns: seq<Column>, init: seq<nat>)
    requires columns != [] && ExactKeys(columns[..|columns| - 1], init)
    ensures var n := |columns| - 1; ExactKeys(columns, init + (if IsPrimaryKey(columns[n]) then [n] else []))
  {
    var n := |columns| - 1;
    var keys := init + (if IsPrimaryKey(columns[n]) then [n] else []);
    forall i | 0 <= i < |keys| ensures keys[i] < |columns| && IsPrimaryKey(columns[keys[i]]) {
      if i < |init| { assert IsPrimaryKey(columns[..n][init[i]]); }
    }
    forall k | 0 <= k < |columns| && IsPrimaryKey(columns[k]) ensures k in keys {
      if k < n { assert IsPrimaryKey(columns[..n][k]); }
    }
    forall i, j | 0 <= i < j < |keys| ensures keys[i] < keys[j] {
      if j == |init| { assert init[i] < n; }
    }
  }

  /** Exact key lists are equal, so the list kept is the list `alter` would generate. */
  lemma {:induction false} ExactKeysUnique(columns: seq<Column>, keys: seq<nat>)
    requires ExactKeys(columns, keys)
    ensures keys == KeyIndices(columns)
  {
    if columns == [] {
      assert keys == [];
    } else {
      var n := |columns| - 1;
      if IsPrimaryKey(columns[n]) {
        LastIsKey(columns, keys);
        ExactKeysInit(columns, keys);
        ExactKeysUnique(columns[..n], keys[..|keys| - 1]);
        assert keys == keys[..|keys| - 1] + [n];
      } else {
        ExactKeysWithout(columns, keys);
        ExactKeysUnique(columns[..n], keys);
      }
    }
  }

  lemma LastIsKey(columns: seq<Column>, keys: seq<nat>)
    requires columns != [] && ExactKeys(columns, keys) && IsPrimaryKey(columns[|columns| - 1])
    ensures keys != [] && keys[|keys| - 1] == |columns| - 1
  {
    var n := |columns| - 1;
    assert n in keys;
    var i :| 0 <= i < |keys| && keys[i] == n;
    assert n == keys[i] <= keys[|keys| - 1] < |columns|;
  }

  lemma ExactKeysWithout(columns: seq<Column>, keys: seq<nat>)
    requires columns != [] && ExactKeys(columns, keys) && !IsPrimaryKey(columns[|columns| - 1])
    ensures ExactKeys(columns[..|columns| - 1], keys)
  {
    var n := |columns| - 1;
    forall i | 0 <= i < |keys| ensures keys[i] < n && IsPrimaryKey(columns[..n][keys[i]]) {
      assert IsPrimaryKey(columns[keys[i]]);
    }
    forall k | 0 <= k < n && IsPrimaryKey(columns[..n][k]) ensures k in keys {
      assert IsPrimaryKey(columns[k]);
    }
  }

  lemma ExactKeysInit(columns: seq<Column>, keys: seq<nat>)
    requires columns != [] && keys != [] && ExactKeys(columns, keys) && keys[|keys| - 1] == |columns| - 1
    ensures ExactKeys(columns[..|columns| - 1], keys[..|keys| - 1])
  {
    var n, m := |columns| - 1, |keys| - 1;
    forall k | 0 <= k < n && IsPrimaryKey(columns[..n][k]) ensures k in keys[..m] {
      assert IsPrimaryKey(columns[k]);
      var i :| 0 <= i < |keys| && keys[i] == k;
      assert keys[..m][i] == k;
    }
  }

  lemma AddKeepsNames(columns: seq<Column>, place: nat, column: Column)
    requires DistinctNames(columns) && place <= |columns|
    requires forall i :: 0 <= i < |columns| ==> columns[i].name != column.name
    ensures DistinctNames(InsertAt(columns, place, column))
  {
  }

  lemma {:induction false} WithoutColumnIs(columns: seq<Column>, name: Ident)
    requires DistinctNames(columns)
    ensures DistinctNames(WithoutColumn(columns, name))
    ensures forall c :: c in WithoutColumn(columns, name) <==> c in columns && c.name != name
  {
    if columns == [] {
    } else {
      var n := |columns| - 1;
      WithoutColumnIs(columns[..n], name);
      var init, r := WithoutColumn(columns[..n], name), WithoutColumn(columns, name);
      assert columns == columns[..n] + [columns[n]];
      forall i | 0 <= i < |init| ensures init[i].name != columns[n].name {
        assert init[i] in columns[..n];
        var k :| 0 <= k < n && columns[k] == init[i];
      }
    }
  }

  lemma CastKeepsKind(cast: Cast, options: seq<ColumnOption>, ty: string)
    requires CastOptions(cast, options, ty).Some?
    ensures var r := CastOptions(cast, options, ty).value;
      && |r| == |options|
      && (forall i :: 0 <= i < |r| ==> if options[i].DefaultValue? then r[i].DefaultValue? else r[i] == options[i])
      && (PrimaryKey in r <==> PrimaryKey in options)
  {
    CastKeepsEach(cast, options, ty);
    var r := CastOptions(cast, options, ty).value;
    if PrimaryKey in options {
      var i :| 0 <= i < |options| && options[i] == PrimaryKey;
      assert r[i] == PrimaryKey;
    }
  }

  lemma {:induction false} CastKeepsEach(cast: Cast, options: seq<ColumnOption>, ty: string)
    requires CastOptions(cast, options, ty).Some?
    ensures var r := CastOptions(cast, options, ty).value;
      && |r| == |options|
      && forall i :: 0 <= i < |r| ==> if options[i].DefaultValue? then r[i].DefaultValue? else r[i] == options[i]
  {
    if options == [] {
    } else {
      CastKeepsEach(cast, options[..|options| - 1], ty);
    }
  }

  /** A change of type touches the type and the default values of one column. */
  lemma ModifiedKeeps(cast: Cast, columns: seq<Column>, column: Column)
    requires Modified(cast, columns, column).Some?
    ensures var r := Modified(cast, columns, column).value;
      && |r| == |columns|
      && (forall i :: 0 <= i < |r| ==>
            r[i].name == columns[i].name && (IsPrimaryKey(r[i]) <==> IsPrimaryKey(columns[i])))
      && (forall i :: 0 <= i < |r| && columns[i].name != column.name ==> r[i] == columns[i])
  {
    var i := Position(columns, column.name);
    if i.Some? {
      CastKeepsKind(cast, columns[i.value].options, column.ty);
    }
  }

  lemma {:induction false} CastValues(cast: Cast, options: seq<ColumnOption>, ty: string)
    ensures CastOptions(cast, options, ty).Some? <==>
            forall i :: 0 <= i < |options| && options[i].DefaultValue? ==> cast(options[i].value, ty).Some?
    ensures CastOptions(cast, options, ty).Some? ==> |CastOptions(cast, options, ty).value| == |options|
    ensures CastOptions(cast, options, ty).Some? ==> forall i :: 0 <= i < |options| && options[i].DefaultValue? ==>
      CastOptions(cast, options, ty).value[i] == DefaultValue(cast(options[i].value, ty).value)
  {
    if options == [] {
    } else {
      CastValues(cast, options[..|options| - 1], ty);
      assert options == options[..|options| - 1] + [options[|options| - 1]];
    }
  }

  /**
   In a table with distinct names, the named column gets the new type and its
   defaults cast to it; the change fails exactly when one of them cannot be cast.
   */
  lemma ModifiedColumn(cast: Cast, columns: seq<Column>, column: Column, i: nat)
    requires DistinctNames(columns) && i < |columns| && columns[i].name == column.name
    ensures Modified(cast, columns, column).Some? <==>
            forall k :: 0 <= k < |columns[i].options| && columns[i].options[k].DefaultValue? ==>
              cast(columns[i].options[k].value, column.ty).Some?
    ensures Modified(cast, columns, column).Some? ==>
      var c := Modified(cast, columns, column).value[i];
      && c.ty == column.ty && |c.options| == |columns[i].options|
      && forall k :: 0 <= k < |c.options| ==>
           c.options[k] == if columns[i].options[k].DefaultValue?
                           then DefaultValue(cast(columns[i].options[k].value, column.ty).value)
                           else columns[i].options[k]
  {
    assert Position(columns, column.name) == Some(i);
    CastValues(cast, columns[i].options, column.ty);
    if Modified(cast, columns, column).Some? {
      CastKeepsKind(cast, columns[i].options, column.ty);
    }
  }

  lemma SetOptionKeepsKeys(options: seq<TableOption>, o: TableOption)
    requires DistinctKeys(options)
    ensures DistinctKeys(SetOption(options, o))
  {
  }

  lemma {:induction false} SetOptionsKeepKeys(options: seq<TableOption>, new_: seq<TableOption>)
    requires DistinctKeys(options)
    ensures DistinctKeys(SetOptions(options, new_))
  {
    if new_ == [] {
    } else {
      SetOptionsKeepKeys(options, new_[..|new_| - 1]);
      SetOptionKeepsKeys(SetOptions(options, new_[..|new_| - 1]), new_[|new_| - 1]);
    }
  }

  lemma {:induction false} WithoutKeysIs(options: seq<TableOption>, keys: seq<string>)
    requires DistinctKeys(options)
    ensures DistinctKeys(WithoutKeys(options, keys))
    ensures forall o :: o in WithoutKeys(options, keys) <==> o in options && o.key !in keys
  {
    if options == [] {
    } else {
      var n := |options| - 1;
      WithoutKeysIs(options[..n], keys);
      var init := WithoutKeys(options[..n], keys);
      assert options == options[..n] + [options[n]];
      forall i | 0 <= i < |init| ensures init[i].key != options[n].key {
        assert init[i] in options[..n];
        var k :| 0 <= k < n && options[k] == init[i];
      }
    }
  }

  lemma AlterKeepsWellFormed(cast: Cast, t: Context, op: Operation)
    requires WellFormed(t) && Altered(cast, t, op).Some?
    ensures WellFormed(Altered(cast, t, op).value)
  {
    match op
    case AddColumn(column, location) =>
      AddKeepsNames(t.columns, Place(t.columns, location).value, column);
      KeyIndicesExact(Altered(cast, t, op).value.columns);
    case DropColumn(name) =>
      WithoutColumnIs(t.columns, name);
      KeyIndicesExact(WithoutColumn(t.columns, name));
    case RenameTable(_) =>
    case ModifyDataType(column) => ModifiedKeeps(cast, t.columns, column);
    case SetTableOptions(options) => SetOptionsKeepKeys(t.options, options);
    case UnsetTableOptions(keys) => WithoutKeysIs(t.options, keys);
  }

  /** The context after a run of operations; the first failure ends the run. */
  function Run(cast: Cast, t: Context, ops: seq<Operation>): Option<Context>
    decreases ops
  {
    if ops == [] then Some(t)
    else
      var next := Altered(cast, t, ops[0]);
      if next.None? then None else Run(cast, next.value, ops[1..])
  }

  /** Well-formedness holds along every run of successful operations. */
  lemma {:induction false} RunKeepsWellFormed(cast: Cast, t: Context, ops: seq<Operation>)
    requires WellFormed(t) && Run(cast, t, ops).Some?
    ensures WellFormed(Run(cast, t, ops).value)
    decreases ops
  {
    if ops == [] {
    } else {
      AlterKeepsWellFormed(cast, t, ops[0]);
      RunKeepsWellFormed(cast, Altered(cast, t, ops[0]).value, ops[1..]);
    }
  }

  /** The column stands right after position `k`, which holds the first column shown under the name. */
  predicate FollowsFirst(columns: seq<Column>, k: nat, column: Column, name: string) {
    && k + 1 < |columns| && columns[k + 1] == column && Shown(columns[k].name) == name
    && forall i :: 0 <= i < k ==> Shown(columns[i].name) != name
  }

  /** Where a new column stands: first, last, or right after the first column shown under the given name. */
  lemma AddedColumnPlace(cast: Cast, t: Context, column: Column, location: Option<Location>)
    requires Altered(cast, t, AddColumn(column, location)).Some?
    ensures var columns := Altered(cast, t, AddColumn(column, location)).value.columns;
      && |columns| == |t.columns| + 1
      && match location
         case None => columns[|t.columns|] == column
         case Some(First) => columns[0] == column
         case Some(After(name)) => exists k :: FollowsFirst(columns, k, column, name)
  {
    if location.Some? && location.value.After? {
      var columns := Altered(cast, t, AddColumn(column, location)).value.columns;
      var k := PositionShown(t.columns, location.value.columnName).value;
      assert columns[k + 1] == column && columns[k] == t.columns[k];
      forall i | 0 <= i < k ensures Shown(columns[i].name) != location.value.columnName {
        assert columns[i] == t.columns[i];
      }
      assert FollowsFirst(columns, k, column, location.value.columnName);
    }
  }

  /**
   Exactly when an operation succeeds. Only four things fail it: a name that is
   taken, a place that is not there, a name that is no change, a failing cast.
   */
  lemma AlterSucceedsExactly(cast: Cast, t: Context, op: Operation)
    ensures Altered(cast, t, op).Some? <==>
            match op
            case AddColumn(column, location) =>
              && (forall c :: c in t.columns ==> c.name != column.name)
              && (location.Some? && location.value.After? ==>
                    exists c :: c in t.columns && Shown(c.name) == location.value.columnName)
            case RenameTable(newName) => newName != t.name
            case ModifyDataType(column) =>
              var i := Position(t.columns, column.name);
              i.Some? ==>
                forall o :: o in t.columns[i.value].options && o.DefaultValue? ==> cast(o.value, column.ty).Some?
            case _ => true
  {
    match op
    case AddColumn(column, location) =>
      if i :| 0 <= i < |t.columns| && t.columns[i].name == column.name {
        assert t.columns[i] in t.columns;
      } else if location.Some? && location.value.After? {
        var k := PositionShown(t.columns, location.value.columnName);
        if k.Some? { assert t.columns[k.value] in t.columns; }
      }
    case ModifyDataType(column) =>
      var i := Position(t.columns, column.name);
      if i.Some? { CastValues(cast, t.columns[i.value].options, column.ty); }
    case _ =>
  }

  /** A quoted column is shown with its quotes, so that its bare name does not find it. */
  lemma QuotedNeedsQuotes(cast: Cast, t: Context, column: Column, value: string, quote: char)
    requires t.columns == [Column(Ident(value, Some(quote)), column.ty, [])]
    requires column.name != Ident(value, Some(quote))
    ensures Altered(cast, t, AddColumn(column, Some(After(value)))).None?
    ensures Altered(cast, t, AddColumn(column, Some(After([quote] + value + [quote])))).Some?
  {
    assert |Shown(t.columns[0].name)| == |value| + 2;
    AlterSucceedsExactly(cast, t, AddColumn(column, Some(After(value))));
    AlterSucceedsExactly(cast, t, AddColumn(column, Some(After([quote] + value + [quote]))));
    assert t.columns[0] in t.columns;
  }

  /** Setting an option leaves every option in its place; a new key goes to the end. */
  lemma SetOptionKeepsPlaces(options: seq<TableOption>, o: TableOption)
    requires DistinctKeys(options)
    ensures var r := SetOption(options, o);
      && |options| <= |r| <= |options| + 1
      && (forall i :: 0 <= i < |options| ==> r[i] == if options[i].key == o.key then o else options[i])
      && (|r| == |options| + 1 ==> r[|options|] == o)
  {
    var k := OptionPosition(options, o.key);
    if k.Some? {
      forall i | 0 <= i < |options| ensures options[i].key == o.key <==> i == k.value {
        assert i < k.value ==> options[i].key != options[k.value].key;
        assert k.value < i ==> options[k.value].key != options[i].key;
      }
    }
  }

  /** Unsetting keeps the order of the options that stay. */
  lemma {:induction false} WithoutKeysConcat(xs: seq<TableOption>, ys: seq<TableOption>, keys: seq<string>)
    ensures WithoutKeys(xs + ys, keys) == WithoutKeys(xs, keys) + WithoutKeys(ys, keys)
  {
    if ys == [] {
      assert xs + ys == xs;
    } else {
      assert (xs + ys)[..|xs + ys| - 1] == xs + ys[..|ys| - 1];
      WithoutKeysConcat(xs, ys[..|ys| - 1], keys);
    }
  }

  /** What an operation does not touch. */
  lemma AlterLeavesTheRest(cast: Cast, t: Context, op: Operation)
    requires Altered(cast, t, op).Some?
    ensures var r := Altered(cast, t, op).value;
      && (!op.RenameTable? ==> r.name == t.name)
      && (op.RenameTable? ==> r == t.(name := op.newName) && r.name != t.name)
      && (!op.SetTableOptions? && !op.UnsetTableOptions? ==> r.options == t.options)
      && (op.SetTableOptions? || op.UnsetTableOptions? ==> r.columns == t.columns)
      && (!op.AddColumn? && !op.DropColumn? ==> r.primaryKeys == t.primaryKeys)
  {
  }

  // ---------- What the options say ----------

  /** The value of an option, by its key. */
  function Lookup(options: seq<TableOption>, key: string): Option<TableOption> {
    var i := OptionPosition(options, key);
    if i.None? then None else Some(options[i.value])
  }

  /** The last of the new options with the key. */
  function LastSet(new_: seq<TableOption>, key: string): Option<TableOption> {
    if new_ == [] then None
    else if new_[|new_| - 1].key == key then Some(new_[|new_| - 1])
    else LastSet(new_[..|new_| - 1], key)
  }

  lemma LookupIs(options: seq<TableOption>, o: TableOption)
    requires DistinctKeys(options)
    ensures Lookup(options, o.key) == Some(o) <==> o in options
  {
    var i := OptionPosition(options, o.key);
    if o in options {
      var k :| 0 <= k < |options| && options[k] == o;
      assert options[k].key == o.key;
    }
  }

  lemma SetOptionLookup(options: seq<TableOption>, o: TableOption, key: string)
    requires DistinctKeys(options)
    ensures Lookup(SetOption(options, o), key) == if o.key == key then Some(o) else Lookup(options, key)
  {
    SetOptionKeepsKeys(options, o);
    var r := SetOption(options, o);
    if o.key == key {
      var k := OptionPosition(options, key);
      assert r[if k.Some? then k.value else |options|] == o;
      LookupIs(r, o);
    } else {
      var i := OptionPosition(options, key);
      if i.Some? {
        assert r[i.value] == options[i.value];
        assert options[i.value] in r;
        LookupIs(r, options[i.value]);
      } else {
        forall k | 0 <= k < |r| ensures r[k].key != key { }
      }
    }
  }

  /** After setting options, each key has the last value set for it, or its old value if none was. */
  lemma {:induction false} LastSetSurvives(options: seq<TableOption>, new_: seq<TableOption>, key: string)
    requires DistinctKeys(options)
    ensures Lookup(SetOptions(options, new_), key) ==
            if LastSet(new_, key).Some? then LastSet(new_, key) else Lookup(options, key)
  {
    if new_ == [] {
    } else {
      var init := new_[..|new_| - 1];
      LastSetSurvives(options, init, key);
      SetOptionsKeepKeys(options, init);
      SetOptionLookup(SetOptions(options, init), new_[|new_| - 1], key);
    }
  }

  /** What the operations leave under the key: the last value set after the last unset of it, else the old one. */
  function LastOption(ops: seq<Operation>, key: string, before: Option<TableOption>): Option<TableOption> {
    if ops == [] then before
    else
      var init, op := ops[..|ops| - 1], ops[|ops| - 1];
      if op.SetTableOptions? && LastSet(op.options, key).Some? then LastSet(op.options, key)
      else if op.UnsetTableOptions? && key in op.keys then None
      else LastOption(init, key, before)
  }

  /** One operation, by the lemmas about setting and unsetting. */
  lemma AlterLookup(cast: Cast, t: Context, op: Operation, key: string)
    requires WellFormed(t) && Altered(cast, t, op).Some?
    ensures Lookup(Altered(cast, t, op).value.options, key) == LastOption([op], key, Lookup(t.options, key))
  {
    assert [op][..0] == [];
    match op
    case SetTableOptions(new_) => LastSetSurvives(t.options, new_, key);
    case UnsetTableOptions(keys) => UnsetRemovesExactly(t.options, keys, key);
    case _ =>
  }

  /** A first operation matters to the rest only through what it leaves. */
  lemma {:induction false} LastOptionFirst(op: Operation, ops: seq<Operation>, key: string, before: Option<TableOption>)
    ensures LastOption([op] + ops, key, before) == LastOption(ops, key, LastOption([op], key, before))
  {
    var all := [op] + ops;
    if ops == [] {
      assert all == [op];
    } else {
      assert all[..|all| - 1] == [op] + ops[..|ops| - 1];
      LastOptionFirst(op, ops[..|ops| - 1], key, before);
    }
  }

  /** Along every run a key has the last value set for it since it was last unset, or else its old value. */
  lemma {:induction false} RunLookup(cast: Cast, t: Context, ops: seq<Operation>, key: string)
    requires WellFormed(t) && Run(cast, t, ops).Some?
    ensures Lookup(Run(cast, t, ops).value.options, key) == LastOption(ops, key, Lookup(t.options, key))
    decreases ops
  {
    if ops == [] {
    } else {
      var next := Altered(cast, t, ops[0]).value;
      AlterKeepsWellFormed(cast, t, ops[0]);
      AlterLookup(cast, t, ops[0], key);
      RunLookup(cast, next, ops[1..], key);
      LastOptionFirst(ops[0], ops[1..], key, Lookup(t.options, key));
      assert [ops[0]] + ops[1..] == ops;
    }
  }

  /** After unsetting keys these are gone, and every other option is as before. */
  lemma UnsetRemovesExactly(options: seq<TableOption>, keys: seq<string>, key: string)
    requires DistinctKeys(options)
    ensures Lookup(WithoutKeys(options, keys), key) == if key in keys then None else Lookup(options, key)
  {
    WithoutKeysIs(options, keys);
    var r := WithoutKeys(options, keys);
    var i := OptionPosition(options, key);
    if i.Some? && key !in keys {
      assert options[i.value] in r;
      LookupIs(r, options[i.value]);
    } else {
      forall k | 0 <= k < |r| ensures r[k].key != key {
        assert r[k] in r;
      }
    }
  }

  // ---------- Dropping undoes adding ----------

  lemma {:induction false} WithoutConcat(xs: seq<Column>, ys: seq<Column>, name: Ident)
    ensures WithoutColumn(xs + ys, name) == WithoutColumn(xs, name) + WithoutColumn(ys, name)
  {
    if ys == [] {
      assert xs + ys == xs;
    } else {
      var n := |ys| - 1;
      assert (xs + ys)[..|xs + ys| - 1] == xs + ys[..n];
      WithoutConcat(xs, ys[..n], name);
    }
  }

  lemma {:induction false} WithoutAbsent(columns: seq<Column>, name: Ident)
    requires forall i :: 0 <= i < |columns| ==> columns[i].name != name
    ensures WithoutColumn(columns, name) == columns
  {
    if columns == [] {
    } else {
      WithoutAbsent(columns[..|columns| - 1], name);
      assert columns == columns[..|columns| - 1] + [columns[|columns| - 1]];
    }
  }

  lemma WithoutInserted(columns: seq<Column>, place: nat, column: Column)
    requires place <= |columns| && forall i :: 0 <= i < |columns| ==> columns[i].name != column.name
    ensures WithoutColumn(InsertAt(columns, place, column), column.name) == columns
  {
    var a, b, name := columns[..place], columns[place..], column.name;
    WithoutConcat(a + [column], b, name);
    WithoutConcat(a, [column], name);
    WithoutAbsent(a, name);
    WithoutAbsent(b, name);
    assert [column][..0] == [];
    assert WithoutColumn([column], name) == [];
    assert a + [] + b == columns;
  }

  /** Adding a column anywhere and dropping it again gives the context back, key indices included. */
  lemma DropUndoesAdd(cast: Cast, t: Context, column: Column, location: Option<Location>)
    requires WellFormed(t) && Altered(cast, t, AddColumn(column, location)).Some?
    ensures Altered(cast, Altered(cast, t, AddColumn(column, location)).value, DropColumn(column.name)) == Some(t)
  {
    WithoutInserted(t.columns, Place(t.columns, location).value, column);
    ExactKeysUnique(t.columns, t.primaryKeys);
  }

  // ---------- The context object ----------

  class Table {
    var name: Ident
    var columns: seq<Column>
    var primaryKeys: seq<nat>
    var options: seq<TableOption>

    ghost function State(): Context
      reads this
    {
      Context(name, columns, primaryKeys, options)
    }

    constructor (t: Context)
      ensures State() == t
    {
      name, columns, primaryKeys, options := t.name, t.columns, t.primaryKeys, t.options;
    }

    /** `alter`. A failed operation leaves the context unchanged. */
    method Alter(cast: Cast, op: Operation) returns (ok: bool)
      modifies this
      ensures ok <==> Altered(cast, old(State()), op).Some?
      ensures State() == if ok then Altered(cast, old(State()), op).value else old(State())
      ensures old(WellFormed(State())) ==> WellFormed(State())
    {
      if WellFormed(State()) && Altered(cast, State(), op).Some? { AlterKeepsWellFormed(cast, State(), op); }
      match op
      case AddColumn(column, location) =>
        if Position(columns, column.name).Some? {
          return false;
        }
        var place := Place(columns, location);
        if place.None? {
          return false;
        }
        columns := InsertAt(columns, place.value, column);
        primaryKeys := RegenerateKeys(columns);
        ok := true;
      case DropColumn(name) =>
        columns := WithoutColumn(columns, name);
        primaryKeys := RegenerateKeys(columns);
        ok := true;
      case RenameTable(newName) =>
        if newName == name {
          return false;
        }
        name := newName;
        ok := true;
      case ModifyDataType(column) =>
        var i := Position(columns, column.name);
        if i.Some? {
          var cast_ := CastDefaults(cast, columns[i.value].options, column.ty);
          if cast_.None? {
            return false;
          }
          columns := columns[i.value := columns[i.value].(ty := column.ty, options := cast_.value)];
        }
        ok := true;
      case SetTableOptions(newOptions) =>
        SetAll(newOptions);
        ok := true;
      case UnsetTableOptions(keys) =>
        options := WithoutKeys(options, keys);
        ok := true;
    }

    static method RegenerateKeys(columns: seq<Column>) returns (keys: seq<nat>)
      ensures keys == KeyIndices(columns)
    {
      keys := [];
      for i := 0 to |columns|
        invariant keys == KeyIndices(columns[..i])
      {
        assert columns[..i + 1][..i] == columns[..i];
        if IsPrimaryKey(columns[i]) {
          keys := keys + [i];
        }
      }
      assert columns[..|columns|] == columns;
    }

    /** The loop over the options of a column, whose default values are cast to the new type. */
    static method CastDefaults(cast: Cast, options: seq<ColumnOption>, ty: string)
      returns (r: Option<seq<ColumnOption>>)
      ensures r == CastOptions(cast, options, ty)
    {
      var done: seq<ColumnOption> := [];
      for i := 0 to |options|
        invariant CastOptions(cast, options[..i], ty) == Some(done)
      {
        assert options[..i + 1][..i] == options[..i];
        if options[i].DefaultValue? {
          var v := cast(options[i].value, ty);
          if v.None? {
            CastFailsEarly(cast, options, ty, i + 1);
            return None;
          }
          done := done + [DefaultValue(v.value)];
        } else {
          done := done + [options[i]];
        }
      }
      assert options[..|options|] == options;
      r := Some(done);
    }

    /** The loop of `SetTableOptions`: replace the option with the key, or append. */
    method SetAll(newOptions: seq<TableOption>)
      modifies this`options
      ensures options == SetOptions(old(options), newOptions)
    {
      for i := 0 to |newOptions|
        invariant options == SetOptions(old(options), newOptions[..i])
      {
        assert newOptions[..i + 1][..i] == newOptions[..i];
        var option := newOptions[i];
        var k := OptionPosition(options, option.key);
        if k.Some? {
          options := options[k.value := option];
        } else {
          options := options + [option];
        }
      }
      assert newOptions[..|newOptions|] == newOptions;
    }
  }

  lemma {:induction false} CastFailsEarly(cast: Cast, options: seq<ColumnOption>, ty: string, n: nat)
    requires n <= |options| && CastOptions(cast, options[..n], ty).None?
    ensures CastOptions(cast, options, ty).None?
    decreases |options| - n
  {
    if n < |options| {
      assert options[..n + 1][..n] == options[..n];
      CastFailsEarly(cast, options, ty, n + 1);
    } else {
      assert options[..n] == options;
    }
  }
}
