/**
 * The daemon's catalog request read back with the dashboard's own query
 * parser: the request names exactly the record's network and station.
 */
module CatalogQuery {
  import opened Wrappers
  import opened Strings
  import MetaDaemon
  import App

  /** The items of the catalog request for a record whose codes hold no `&`. */
  lemma CheckQueryItems(r: MetaDaemon.Record)
    requires '&' !in r.network && '&' !in r.station
    ensures Split(App.TrimQueryString(MetaDaemon.CheckQuery(r)), '&')
      == ["network=" + r.network, "station=" + r.station, "level=response"]
  {
    var items := ["network=" + r.network, "station=" + r.station, "level=response"];
    assert App.TrimQueryString(MetaDaemon.CheckQuery(r)) == Join(items, "&");
    assert '&' !in items[0] && '&' !in items[1] && '&' !in items[2];
    SplitJoin(items, '&');
  }

  /** Each item of the catalog request parses to its key and value. */
  lemma CheckQueryItemsParse(r: MetaDaemon.Record, decode: string -> Option<string>)
    requires '=' !in r.network && '=' !in r.station
    requires decode("network") == Some("network") && decode("station") == Some("station")
    requires decode("level") == Some("level") && decode("response") == Some("response")
    requires decode(r.network) == Some(r.network) && decode(r.station) == Some(r.station)
    ensures App.ParseItem("network=" + r.network, decode) == Some(("network", r.network))
    ensures App.ParseItem("station=" + r.station, decode) == Some(("station", r.station))
    ensures App.ParseItem("level=response", decode) == Some(("level", "response"))
  {
    assert "network=" + r.network == "network" + "=" + r.network by { assert "network=" == "network" + "="; }
    assert "station=" + r.station == "station" + "=" + r.station by { assert "station=" == "station" + "="; }
    assert "level=response" == "level" + "=" + "response";
    App.ItemWithValue("network", r.network, decode);
    App.ItemWithValue("station", r.station, decode);
    App.ItemWithValue("level", "response", decode);
  }

  /**
   * The catalog request carries exactly the record's network and station and
   * `level=response`, when neither code holds a `&` or `=` and decoding
   * leaves the pieces as they are.
   */
  lemma CheckQueryParses(r: MetaDaemon.Record, decode: string -> Option<string>)
    requires '&' !in r.network && '=' !in r.network && '&' !in r.station && '=' !in r.station
    requires decode("network") == Some("network") && decode("station") == Some("station")
    requires decode("level") == Some("level") && decode("response") == Some("response")
    requires decode(r.network) == Some(r.network) && decode(r.station) == Some(r.station)
    ensures App.Parsed(Split(App.TrimQueryString(MetaDaemon.CheckQuery(r)), '&'), decode)
      == Some(map["network" := r.network, "station" := r.station, "level" := "response"])
  {
    CheckQueryItems(r);
    CheckQueryItemsParse(r, decode);
    App.ParsedThree("network=" + r.network, "station=" + r.station, "level=response", decode,
                    "network", r.network, "station", r.station, "level", "response");
  }
}
