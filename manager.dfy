/**
 * `TranspoolManager`: the loaded dataset, that is, the map it installed in
 * the `Map` singleton, the trips manager and the users. The user registry
 * (`getUserIfExists`, `hasUser`, `getUserByName`, `createUser`) is not part
 * of the class's own file; it is modelled from its call sites in the two
 * engines as a list of users searched by name.
 */
module Manager {
  import opened Common
  import opened Stations
  import opened Roads
  import opened Maps
  import opened Users
  import opened Trips

  class TranspoolManager {
    var roadMap: Option<Map>
    const tripsManager: TripsManager
    var users: seq<User>

    /**
     * `new TranspoolManager(boundaries, stations, roads, offers)`: `Map.init`
     * with the boundaries; when a map already exists the exception is
     * swallowed and the map field stays null. The trips manager is built either way.
     */
    constructor (registry: MapRegistry, length: int, width: int, stations: seq<Station>, roads: seq<Road>,
                 offers: seq<TripOffer>)
      modifies registry
      ensures old(registry.instance).None? ==>
        roadMap == Some(Map(length, width, stations, roads)) && registry.instance == roadMap
      ensures old(registry.instance).Some? ==> roadMap == None && registry.instance == old(registry.instance)
      ensures fresh(tripsManager) && tripsManager.offers == offers && tripsManager.requests == {}
      ensures users == []
    {
      var installed := registry.Init(length, width, stations, roads);
      roadMap := if installed.Success? then Some(installed.value) else None;
      tripsManager := new TripsManager(offers);
      users := [];
    }

    /** `hasUser(name)`. */
    predicate HasUser(name: string)
      reads this, set u | u in users
    {
      FirstUserNamed(users, name).Some?
    }

    /** `getUserIfExists(name)`: the user of that name, or `null`. */
    function GetUserIfExists(name: string): (r: Option<User>)
      reads this, set u | u in users
      ensures r.Some? <==> HasUser(name)
      ensures r.Some? ==> r.value in users && r.value.name == name
    {
      FirstUserNamed(users, name)
    }

    /**
     * `createUser(name)`: a `UserAlreadyExistsException` when the name is
     * taken; otherwise a new user with the next id and balance 0 joins.
     */
    method CreateUser(counter: IdCounter, name: string) returns (r: Result<User>)
      modifies this, counter
      ensures old(HasUser(name)) ==>
        r == Failure(UserAlreadyExists(name)) && users == old(users) && counter.last == old(counter.last)
      ensures !old(HasUser(name)) ==>
        r.Success? && fresh(r.value) && users == old(users) + [r.value]
        && r.value.name == name && r.value.balance == 0.0
        && r.value.id == counter.last == old(counter.last) + 1
      ensures roadMap == old(roadMap)
    {
      if HasUser(name) {
        return Failure(UserAlreadyExists(name));
      }
      var u := new User.WithName(counter, name);
      users := users + [u];
      return Success(u);
    }
  }
}
