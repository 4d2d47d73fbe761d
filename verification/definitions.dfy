/** The program-wide constants the update pipeline and the main window
    consult: the running build number, the deployment flag and the server
    locations. */
module Definitions {

  /** Build number of the running software. */
  const SOFTWARE_BUILD: int := 10

  /** Whether this is an app-store deployment (update checks are then off). */
  const APP_STORE: bool := false

  /** The server directory every update file lives in, written in pieces
      so that its characters are visible to the verifier. */
  const SERVER: string := "http://" + "passiflora." + "enmed.de"
  const UPDATES_DIR: string := SERVER + "/updates_raw/"

  const UPDATE_URL: string := UPDATES_DIR + "updates"
  const PLANT_DB_URL: string := UPDATES_DIR + "data.db"
  const PLANT_DB_NOTICE: string := UPDATES_DIR + "dbnotice"
  const PLANT_DB_CHANGELOG: string := UPDATES_DIR + "dbchangelog"
  const PLANT_DB_IMG_URL: string := UPDATES_DIR + "images/"
  const PLANT_DB_IMG_META_URL: string := UPDATES_DIR + "plantimagesmeta.json"
  const DOWNLOAD_URL: string := SERVER + "/update/"

  /** The server part of every URL has neither a query nor a fragment. */
  lemma ServerIsPlain()
    ensures '?' !in UPDATES_DIR && '#' !in UPDATES_DIR
  {
    assert '?' !in "http://" && '#' !in "http://";
    assert '?' !in "passiflora." && '#' !in "passiflora.";
    assert '?' !in "enmed.de" && '#' !in "enmed.de";
    assert '?' !in SERVER && '#' !in SERVER;
    assert '?' !in "/updates_raw/" && '#' !in "/updates_raw/";
  }

  /** The image directory URL ends in '/' and has neither a query nor a
      fragment, so a file name appended to it is the URL's last path
      segment. */
  lemma ImageUrlIsPlain()
    ensures PLANT_DB_IMG_URL != [] && PLANT_DB_IMG_URL[|PLANT_DB_IMG_URL| - 1] == '/'
    ensures '?' !in PLANT_DB_IMG_URL && '#' !in PLANT_DB_IMG_URL
  {
    ServerIsPlain();
    assert '?' !in "images/" && '#' !in "images/";
  }
}
