/**
 * What a coordinator hands a syncing replica (src/Server/SyncInfo.java): either
 * the actions it applied after the replica's latest timestamp, or its whole
 * table. A field left unset by the constructor is the source's null.
 */
module SyncInfos {

  import opened Wrappers
  import opened LoginInfos
  import opened ActionLogs

  datatype SyncInfo = SyncInfo(recentActions: Option<Log>, allData: Option<Table>)

  /** `new SyncInfo(SortedMap)`; the map itself may be null. */
  function FromRecentActions(recentActions: Option<Log>): (r: SyncInfo)
    ensures r.allData.None? && r.recentActions == recentActions
  {
    SyncInfo(recentActions, None)
  }

  /** `new SyncInfo(Map)`, always given a table. */
  function FromAllData(allData: Table): (r: SyncInfo)
    ensures r.recentActions.None? && r.allData == Some(allData)
  {
    SyncInfo(None, Some(allData))
  }

  function IsEntireDatabase(info: SyncInfo): bool
  {
    info.allData.Some?
  }

  /**
   * The two constructors never both set a field: a tail is never taken for
   * the entire database, a table always is.
   */
  lemma ConstructorsAreTold(recentActions: Option<Log>, allData: Table)
    ensures !IsEntireDatabase(FromRecentActions(recentActions))
    ensures IsEntireDatabase(FromAllData(allData))
    ensures FromRecentActions(recentActions) != FromAllData(allData)
    ensures forall r :: (r == FromRecentActions(recentActions) || r == FromAllData(allData)) ==>
      !(r.recentActions.Some? && r.allData.Some?)
  {
  }
}
