/** The `'data'` handler of index.js: a polled sample is compared with the
    cached one of its device (keyed by serial) and written to the database
    only when it counts as a change. */
module Adapter {
  import opened Wrappers
  import opened Pluggit
  import Datastore
  import ChangeDetection
  import Persistence

  /** One `'data'` event: `checkModified(dp.serial, dp)`, then
      `storeDatabase(dp)` when it answered yes. */
  method OnData(store: Datastore.Cache<Sample>, db: Persistence.Database, dp: Sample,
                configured: bool, faults: Persistence.Faults, seconds: ChangeDetection.Seconds)
      returns (modified: bool, outcome: Option<Persistence.Outcome>)
    modifies store, db
    ensures modified == ChangeDetection.Modified(Datastore.Find(old(store.entries), dp.serial), dp, seconds)
    ensures store.entries == if modified then old(store.entries)[dp.serial := dp] else old(store.entries)
    ensures modified ==> outcome.Some? && Persistence.Persisted(db.Snapshot(), outcome.value)
                                          == Persistence.Persist(old(db.Snapshot()), dp, configured, faults)
    ensures !modified ==> outcome.None? && db.Snapshot() == old(db.Snapshot())
  {
    modified := ChangeDetection.CheckModified(store, dp.serial, dp, seconds);
    if modified {
      var stored := db.StoreDatabase(dp, configured, faults);
      outcome := Some(stored);
    } else {
      outcome := None;
    }
  }

  /** The same sample delivered twice in a row is written at most once: the
      second delivery finds itself in the cache and is no change. */
  lemma SecondDeliveryIgnored(entries: map<int, Sample>, dp: Sample, seconds: ChangeDetection.Seconds)
    requires ChangeDetection.Modified(Datastore.Find(entries, dp.serial), dp, seconds)
    ensures !ChangeDetection.Modified(Datastore.Find(entries[dp.serial := dp], dp.serial), dp, seconds)
  {
    Datastore.FindAfterStore(entries, dp.serial, dp, dp.serial);
    ChangeDetection.NotModifiedBySelf(dp, seconds);
  }
}
