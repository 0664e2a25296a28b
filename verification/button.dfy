/** The install button's state (getButtonConfig): a pure choice over the package's latest
    release and its record in the local install registry. */
module Button {
  import opened Wrappers
  import opened InstallTypes

  datatype ButtonAction = Disabled | Install | Update | Uninstall

  function ButtonConfig(registry: Registry, packageId: nat, latest: Option<Release>): (b: ButtonAction)
    ensures b == Disabled <==> latest.None?
    ensures b == Install <==> latest.Some? && packageId !in registry
    ensures b == Uninstall <==> latest.Some? && packageId in registry && registry[packageId] == latest.value.id
    ensures b == Update <==> latest.Some? && packageId in registry && registry[packageId] != latest.value.id
  {
    if latest.None? then Disabled
    else if packageId in registry then
      if registry[packageId] == latest.value.id then Uninstall else Update
    else Install
  }

  /** The button depends on the registry only through the package's own record. */
  lemma ButtonIgnoresOtherRecords(r1: Registry, r2: Registry, packageId: nat, latest: Option<Release>)
    requires packageId in r1 <==> packageId in r2
    requires packageId in r1 ==> r1[packageId] == r2[packageId]
    ensures ButtonConfig(r1, packageId, latest) == ButtonConfig(r2, packageId, latest)
  {
  }
}
