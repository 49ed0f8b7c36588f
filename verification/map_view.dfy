/**
 * The map state script.js keeps in the globals `map` and `userMarker`: the
 * view (centre and zoom), the user's position marker and the layers on the
 * map, as changed by the geolocation callback and by `toggleRecenter`.
 */
module MapView {

  /** A geographic position, as Leaflet's `[latitude, longitude]`. */
  datatype LatLng = LatLng(latitude: real, longitude: real)

  /** What `map.setView` sets: the centre and the zoom level. */
  datatype View = View(center: LatLng, zoom: int)

  /** The zoom level used for the user's position. */
  const LocateZoom := 14

  /** The view `initMap` creates the map with: central Stockholm at zoom 6. */
  const InitialView := View(LatLng(59.334591, 18.063240), 6)

  /** The popup bound to the user's marker ("You are here"). */
  const UserPopup := "Du är här"

  /**
   * What a call of `getUserLocation` comes to: no geolocation API, the
   * error callback, or the success callback with the position fix.
   */
  datatype Geolocation = Unsupported | PositionError | Position(coords: LatLng)

  /** A Leaflet marker with its popup text. */
  class Marker {
    const position: LatLng
    const popup: string

    constructor(position: LatLng, popup: string)
      ensures this.position == position && this.popup == popup
    {
      this.position := position;
      this.popup := popup;
    }
  }

  /** The map object and the `userMarker` global together. */
  class MapState {
    var view: View
    /** The markers added to the map (the tile layer is not modelled). */
    var layers: set<Marker>
    var userMarker: Marker?

    /** The marker in `userMarker`, if any, is the only marker on the map. */
    ghost predicate Valid()
      reads this
    {
      if userMarker == null then layers == {} else layers == {userMarker}
    }

    /** `L.map(...)` in `initMap`, before any position is known. */
    constructor()
      ensures Valid()
      ensures view == InitialView && userMarker == null && layers == {}
    {
      view := InitialView;
      layers := {};
      userMarker := null;
    }

    /**
     * `getUserLocation` and its callbacks. On a fix the view moves there at
     * zoom 14, the previous marker is taken off the map and a new one with
     * the popup takes its place; without the API or on an error nothing changes.
     */
    method GetUserLocation(geo: Geolocation)
      requires Valid()
      modifies this
      ensures Valid()
      ensures geo.Position? ==>
                && view == View(geo.coords, LocateZoom)
                && userMarker != null && fresh(userMarker)
                && userMarker.position == geo.coords && userMarker.popup == UserPopup
                && old(userMarker) !in layers
      ensures !geo.Position? ==>
                view == old(view) && userMarker == old(userMarker) && layers == old(layers)
    {
      match geo {
        case Unsupported =>
        case PositionError =>
        case Position(coords) =>
          view := View(coords, LocateZoom);
          if userMarker != null {
            layers := layers - {userMarker};
          }
          var marker := new Marker(coords, UserPopup);
          layers := layers + {marker};
          userMarker := marker;
      }
    }

    /**
     * `toggleRecenter`: back to the user's marker at zoom 14, or nothing
     * when no position has been found yet. The markers stay as they are.
     */
    method ToggleRecenter()
      requires Valid()
      modifies this
      ensures Valid()
      ensures userMarker == old(userMarker) && layers == old(layers)
      ensures userMarker == null ==> view == old(view)
      ensures userMarker != null ==> view == View(userMarker.position, LocateZoom)
    {
      if userMarker == null {
        return;
      }
      view := View(userMarker.position, LocateZoom);
    }
  }

  // ----- sequences of calls on a fresh map -----

  /** After two fixes, the map carries one user marker, at the second. */
  method LocateTwice(first: LatLng, second: LatLng) returns (markers: nat, at: LatLng, view: View)
    ensures markers == 1 && at == second
    ensures view == View(second, LocateZoom)
  {
    var m := new MapState();
    m.GetUserLocation(Position(first));
    m.GetUserLocation(Position(second));
    markers := |m.layers|;
    at := m.userMarker.position;
    view := m.view;
  }

  /** Recentring before any fix leaves the initial view, with no marker on the map. */
  method RecenterWithoutFix(geo: Geolocation) returns (markers: nat, view: View)
    requires !geo.Position?
    ensures markers == 0 && view == InitialView
  {
    var m := new MapState();
    m.GetUserLocation(geo);
    m.ToggleRecenter();
    markers := |m.layers|;
    view := m.view;
  }

  /** A later failed lookup keeps the earlier marker, and recentring returns to it. */
  method RecenterAfterFailedRetry(fix: LatLng, retry: Geolocation) returns (markers: nat, view: View)
    requires !retry.Position?
    ensures markers == 1 && view == View(fix, LocateZoom)
  {
    var m := new MapState();
    m.GetUserLocation(Position(fix));
    m.GetUserLocation(retry);
    m.ToggleRecenter();
    markers := |m.layers|;
    view := m.view;
  }
}
