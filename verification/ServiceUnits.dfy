/** Stopping a service for the duration of a block and starting it again. */
module ServiceUnits {

  datatype ServiceStatus = ACTIVE | RELOADING | INACTIVE | FAILED | ACTIVATING | DEACTIVATING | OFF

  predicate IsDown(s: ServiceStatus) { s == INACTIVE || s == FAILED }

  predicate WasRunning(s: ServiceStatus) { s == ACTIVATING || s == ACTIVE }

  class ServiceUnit {
    var status: ServiceStatus
    const alwaysActive: bool
    /** systemd carries out every request in time. */
    const obeys: bool

    /** Asks systemd for a change; it may refuse, and any status may follow. */
    method Request() returns (ok: bool)
      modifies this
      ensures obeys ==> ok
    {
      ok := *;
      ok := ok || obeys;
      status := *;
    }

    /** Waits until the status is one of `expected`, or times out. */
    method WaitForStatuses(expected: set<ServiceStatus>) returns (ok: bool)
      requires expected != {}
      modifies this
      ensures ok ==> status in expected
      ensures obeys ==> ok
    {
      var reached: ServiceStatus := *;
      if obeys && reached !in expected {
        reached :| reached in expected;
      }
      status := reached;
      return status in expected;
    }
  }

  class StoppedService {
    const service: ServiceUnit
    var originalStatus: ServiceStatus

    constructor (service: ServiceUnit)
      ensures this.service == service
    {
      this.service := service;
    }

    method Enter() returns (ok: bool)
      modifies this, service
      ensures ok ==> originalStatus == old(service.status)
      ensures service.alwaysActive || old(service.status) in {INACTIVE, FAILED} ==>
                ok && service.status == old(service.status)
      ensures ok && !service.alwaysActive ==> service.status in {INACTIVE, FAILED}
      ensures service.obeys ==> ok
    {
      originalStatus := service.status;
      ok := true;
      if !IsDown(originalStatus) && !service.alwaysActive {
        ok := service.Request();
        if ok {
          ok := service.WaitForStatuses({INACTIVE, FAILED});
        }
      }
    }

    method Exit() returns (ok: bool)
      modifies service
      ensures ok && !service.alwaysActive && originalStatus in {ACTIVE, ACTIVATING} ==> service.status == ACTIVE
      ensures service.alwaysActive || originalStatus !in {ACTIVE, ACTIVATING} ==>
                ok && service.status == old(service.status)
      ensures service.obeys ==> ok
    {
      ok := true;
      if WasRunning(originalStatus) && !service.alwaysActive {
        ok := service.Request();
        if ok {
          ok := service.WaitForStatuses({ACTIVE});
        }
      }
    }
  }
}
