/** Instants and their projection onto local calendar fields.

    The time-zone libraries the services call (Luxon and date-fns-tz) are
    not modelled: each is an arbitrary total function held in a `Zones`
    value that the caller supplies, so every property proved below holds
    whatever time-zone database is in use. */
module TimeZones {
  import opened Wrappers

  /** A point in time: milliseconds since the epoch (`Date.getTime()`). */
  type Instant = int

  /** Calendar fields of an instant as seen in some zone. */
  datatype Fields = Fields(year: int, month: int, day: int, hour: int)

  /** The time-zone services the core relies on.
      - `luxon(t, zone)`: `DateTime.fromJSDate(t, { zone })` or
        `DateTime.now().setZone(zone)`; `None` is Luxon's invalid DateTime,
        returned for an unsupported zone, whose fields all read `NaN`.
      - `toZonedTime(t, zone)`: date-fns-tz's `toZonedTime`; `None` when the
        call throws.
      - `host(t)`: the getters of a JavaScript `Date` (`getFullYear`,
        `getMonth`, `getDate`, `getHours`) in the process's own zone. */
  datatype Zones = Zones(
    luxon: (Instant, string) -> Option<Fields>,
    toZonedTime: (Instant, string) -> Option<Instant>,
    host: Instant -> Fields)
}
