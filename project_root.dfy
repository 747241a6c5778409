/**
  The registry object: four mutable fields, the four state-changing
  operations as methods that update them in place, and the read-only
  lookups as functions. Each method is proved to perform exactly the
  transition of RegistryState, so the whole-trace lemmas proved there hold
  of any sequence of method calls on one Registry.
 */
module ProjectRoot {
  import opened RegistryState

  class Registry {
    var admin: string
    var paused: bool
    var projectCounter: nat
    var projects: map<int, Project>

    /** The registry's fields as one value. */
    function Snapshot(): State
      reads this
    {
      State(admin, paused, projectCounter, projects)
    }

    ghost predicate Valid()
      reads this
    {
      Inv(Snapshot())
    }

    /** The reset state: the fixed initial admin, unpaused, counter 0, no projects. */
    constructor ()
      ensures Valid()
      ensures Snapshot() == Initial()
      ensures admin == INITIAL_ADMIN && !paused && projectCounter == 0 && projects == map[]
      ensures IsPaused() == Ok(false) && GetAdmin() == Ok(INITIAL_ADMIN) && GetProjectCount() == Ok(0)
    {
      admin := INITIAL_ADMIN;
      paused := false;
      projectCounter := 0;
      projects := map[];
    }

    /** The admin test accepts exactly the identity that GetAdmin reports. */
    predicate IsAdmin(caller: string)
      reads this
      ensures IsAdmin(caller) <==> GetAdmin() == Ok(caller)
    {
      RegistryState.IsAdmin(Snapshot(), caller)
    }

    method SetPaused(caller: string, pause: bool) returns (r: Result<bool>)
      requires Valid()
      modifies this
      ensures Valid()
      ensures Outcome(Snapshot(), r) == SetPausedStep(old(Snapshot()), caller, pause)
      ensures caller != old(admin) ==> r == Err(NotAuthorized) && Snapshot() == old(Snapshot())
      ensures caller == old(admin) ==>
                && r == Ok(pause) && paused == pause && IsPaused() == Ok(pause)
                && admin == old(admin) && projectCounter == old(projectCounter) && projects == old(projects)
    {
      if !IsAdmin(caller) {
        return Err(NotAuthorized);
      }
      paused := pause;
      return Ok(pause);
    }

    method TransferAdmin(caller: string, newAdmin: string) returns (r: Result<bool>)
      requires Valid()
      modifies this
      ensures Valid()
      ensures Outcome(Snapshot(), r) == TransferAdminStep(old(Snapshot()), caller, newAdmin)
      ensures caller != old(admin) ==> r == Err(NotAuthorized) && Snapshot() == old(Snapshot())
      ensures caller == old(admin) ==>
                && r == Ok(true) && admin == newAdmin && GetAdmin() == Ok(newAdmin)
                && (forall other :: IsAdmin(other) <==> other == newAdmin)
                && paused == old(paused) && projectCounter == old(projectCounter) && projects == old(projects)
    {
      if !IsAdmin(caller) {
        return Err(NotAuthorized);
      }
      admin := newAdmin;
      return Ok(true);
    }

    method RegisterProject(caller: string, location: string, metadataUri: string, blockHeight: nat)
      returns (r: Result<nat>)
      requires Valid()
      modifies this
      ensures Valid()
      ensures Outcome(Snapshot(), r) == RegisterProjectStep(old(Snapshot()), caller, location, metadataUri, blockHeight)
      ensures old(paused) ==> r == Err(Paused) && Snapshot() == old(Snapshot())
      ensures !old(paused) && !(ValidLocation(location) && ValidUri(metadataUri)) ==>
                r == Err(InvalidMetadata) && Snapshot() == old(Snapshot())
      ensures !old(paused) && ValidLocation(location) && ValidUri(metadataUri) ==>
                && r == Ok(old(projectCounter) + 1)
                && old(projectCounter) + 1 !in old(projects)
                && projectCounter == old(projectCounter) + 1
                && projects == old(projects)[projectCounter := Project(caller, location, metadataUri, blockHeight, true)]
                && admin == old(admin) && paused == old(paused)
    {
      if paused {
        return Err(Paused);
      }
      if !ValidLocation(location) {
        return Err(InvalidMetadata);
      }
      if !ValidUri(metadataUri) {
        return Err(InvalidMetadata);
      }
      var projectId := projectCounter + 1;
      var project := Project(caller, location, metadataUri, blockHeight, true);
      projects := projects[projectId := project];
      projectCounter := projectId;
      return Ok(projectId);
    }

    method DeactivateProject(caller: string, projectId: int) returns (r: Result<bool>)
      requires Valid()
      modifies this
      ensures Valid()
      ensures Outcome(Snapshot(), r) == DeactivateProjectStep(old(Snapshot()), caller, projectId)
      ensures caller != old(admin) ==> r == Err(NotAuthorized) && Snapshot() == old(Snapshot())
      ensures caller == old(admin) && projectId !in old(projects) ==>
                r == Err(NotFound) && Snapshot() == old(Snapshot())
      ensures caller == old(admin) && projectId in old(projects) ==>
                && r == Ok(true)
                && projects == old(projects)[projectId := old(projects)[projectId].(isActive := false)]
                && admin == old(admin) && paused == old(paused) && projectCounter == old(projectCounter)
    {
      if !IsAdmin(caller) {
        return Err(NotAuthorized);
      }
      if projectId !in projects {
        return Err(NotFound);
      }
      var project := projects[projectId];
      projects := projects[projectId := project.(isActive := false)];
      return Ok(true);
    }

    /** The stored record, or NotFound exactly when the ID was never assigned. */
    function GetProject(projectId: int): (r: Result<Project>)
      reads this
      ensures r.Err? <==> projectId !in projects
      ensures r.Err? ==> r.error == NotFound
      ensures r.Ok? ==> r.value == projects[projectId]
      ensures Valid() ==> (r.Ok? <==> 1 <= projectId <= projectCounter)
    {
      if projectId !in projects then Err(NotFound) else Ok(projects[projectId])
    }

    /** The active flag of the record GetProject would return, with the same NotFound case. */
    function IsProjectActive(projectId: int): (r: Result<bool>)
      reads this
      ensures r.Err? <==> GetProject(projectId).Err?
      ensures r.Err? ==> r.error == NotFound
      ensures r.Ok? ==> r.value == GetProject(projectId).value.isActive
    {
      if projectId !in projects then Err(NotFound) else Ok(projects[projectId].isActive)
    }

    /** The number of projects ever registered, deactivated ones included. */
    function GetProjectCount(): (r: Result<nat>)
      reads this
      ensures r.Ok? && r.value == projectCounter
      ensures Valid() ==> r.value == |projects|
      ensures forall id :: Valid() && GetProject(id).Ok? ==> 1 <= id <= r.value
    {
      CounterCountsProjects(Snapshot());
      Ok(projectCounter)
    }

    function IsPaused(): (r: Result<bool>)
      reads this
      ensures r.Ok? && r.value == paused
    {
      Ok(paused)
    }

    function GetAdmin(): (r: Result<string>)
      reads this
      ensures r.Ok? && r.value == admin
    {
      Ok(admin)
    }
  }
}
