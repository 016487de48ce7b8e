/** `BaseAdminModule`: which modules are enabled, keyed by the module name
    (the table's primary key). */
module BaseAdmin {
  import opened Results
  import opened Tables

  datatype BaseAdminModule = BaseAdminModule(name: string, enabled: bool)

  function ModuleName(m: BaseAdminModule): string { m.name }

  /** `BaseAdminModule.get`. */
  function GetModule(t: seq<BaseAdminModule>, name: string): (r: Result<Option<BaseAdminModule>, DbError>)
    ensures Unique(t, ModuleName) ==> r.Ok?
    ensures r.Ok? && r.value.Some? ==> r.value.value in t && r.value.value.name == name
    ensures r == Ok(None) <==> forall m :: m in t ==> m.name != name
  {
    UniqueWhere(t, ModuleName, name);
    Get(t, ModuleName, name)
  }

  /** `BaseAdminModule.add`: merge the entry by its name, whether or not
      the name was stored before. */
  function AddModule(t: seq<BaseAdminModule>, name: string, enabled: bool): (r: Change<BaseAdminModule, BaseAdminModule>)
    ensures r.out == BaseAdminModule(name, enabled)
    ensures Unique(t, ModuleName) ==>
      Unique(r.rows, ModuleName) && GetModule(r.rows, name) == Ok(Some(BaseAdminModule(name, enabled)))
    ensures forall m :: m in r.rows ==> m == r.out || (m in t && m.name != name)
    ensures forall n :: n != name ==> GetModule(r.rows, n) == GetModule(t, n)
  {
    var row := BaseAdminModule(name, enabled);
    Change(row, Merge(t, ModuleName, row))
  }

  /** Adding the same entry twice stores it once. */
  lemma AddModuleTwice(t: seq<BaseAdminModule>, name: string, enabled: bool)
    requires Unique(t, ModuleName)
    ensures AddModule(AddModule(t, name, enabled).rows, name, enabled) == AddModule(t, name, enabled)
  {
    var row := BaseAdminModule(name, enabled);
    var s := AddModule(t, name, enabled).rows;
    GetOnly(s, ModuleName, name);
    assert row in Where(s, ModuleName, name);
    OverwriteSame(s, ModuleName, row);
  }

  /** `BaseAdminModule.get_all`: every stored entry, each name once. */
  function AllModules(t: seq<BaseAdminModule>): (s: seq<BaseAdminModule>)
    ensures forall m :: m in s <==> m in t
    ensures Unique(t, ModuleName) ==> forall i, j :: 0 <= i < j < |s| ==> s[i].name != s[j].name
  {
    t
  }
}
