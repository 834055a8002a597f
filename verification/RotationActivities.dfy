/** How attempts at the activities of pkg/lifecycle/rotation_workflow.go end, and how often they are retried. */
module RotationActivities {

  const MAX_ATTEMPTS: nat := 3

  /**
    What one attempt does. Acked: takes effect and is reported. Lost: takes effect, but a
    failure is reported. Failed: no effect. Half: a rollback that stops after reactivating the
    old key; any other activity has one step only, so there it is a failure.
   */
  datatype Outcome = Acked | Lost | Failed | Half

  predicate TakesEffect(o: Outcome) {
    o.Acked? || o.Lost?
  }
}
