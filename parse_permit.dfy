/** `parsePermitFeature` (utils/parsePermit.js): turns one raw GeoJSON point
    feature of the construction-permit data set into a flat record. It never
    rejects a feature: missing parts become `null` coordinates or empty
    category strings. */
module ParsePermit {
  import opened Strings
  import opened JsValues

  /** The record `parsePermitFeature` returns. `None` stands for `null`. */
  datatype Permit = Permit(
    lon: Option<Number>,
    lat: Option<Number>,
    borough: string,
    permitType: string,
    jobType: string,
    permitStatus: string,
    properties: JsValue,
    raw: JsValue)

  /** JavaScript's `null` and `undefined`, on which property access throws. */
  predicate IsNullish(v: JsValue) { v.Undefined? || v.Null? }

  /** `f.properties || {}` */
  function PropsOf(f: JsValue): JsValue {
    Or(Get(f, "properties"), Obj(map[]))
  }

  /** `f.geometry && f.geometry.coordinates` */
  function CoordsOf(f: JsValue): JsValue {
    var g := Get(f, "geometry");
    if Truthy(g) then Get(g, "coordinates") else g
  }

  /** `coords && coords[i] !== undefined ? parseFloat(coords[i]) : null` */
  function Coordinate(coords: JsValue, i: nat, parseFloat: string -> Number): Option<Number> {
    if Truthy(coords) && Index(coords, i) != Undefined then Some(parseFloat(ToStr(Index(coords, i))))
    else None
  }

  /** `(v || '').toString().toUpperCase()` */
  function Category(v: JsValue): (c: string)
    ensures IsUpperCased(c)
    ensures !Truthy(v) ==> c == ""
    ensures v.Str? ==> c == Upper(v.s)
  {
    UpperIsUpperCased(ToStr(v));
    if Truthy(v) then Upper(ToStr(v)) else ""
  }

  function ParsePermitFeature(f: JsValue, parseFloat: string -> Number): (p: Permit)
    requires !IsNullish(f)
    // a missing or falsy `properties` is read as an empty object
    ensures p.properties == (if Truthy(Get(f, "properties")) then Get(f, "properties") else Obj(map[]))
    ensures p.raw == f
    // `lon` is element 0 and `lat` element 1 of the coordinates, null when absent,
    // and never rejected: the parse result is kept even when it is NaN
    ensures p.lon.None? <==> !Truthy(CoordsOf(f)) || Index(CoordsOf(f), 0) == Undefined
    ensures p.lat.None? <==> !Truthy(CoordsOf(f)) || Index(CoordsOf(f), 1) == Undefined
    ensures p.lon.Some? ==> p.lon.value == parseFloat(ToStr(Index(CoordsOf(f), 0)))
    ensures p.lat.Some? ==> p.lat.value == parseFloat(ToStr(Index(CoordsOf(f), 1)))
    // every category field is an upper-cased string, "" when absent
    ensures IsUpperCased(p.borough) && IsUpperCased(p.permitType)
    ensures IsUpperCased(p.jobType) && IsUpperCased(p.permitStatus)
    ensures p.borough == Category(Get(p.properties, "BOROUGH"))
    ensures p.permitStatus == Category(Get(p.properties, "Permit Status"))
    // 'Permit Type' wins over PermitType, and 'Job Type' over JobType, when truthy
    ensures p.permitType ==
              if Truthy(Get(p.properties, "Permit Type")) then Category(Get(p.properties, "Permit Type"))
              else Category(Get(p.properties, "PermitType"))
    ensures p.jobType ==
              if Truthy(Get(p.properties, "Job Type")) then Category(Get(p.properties, "Job Type"))
              else Category(Get(p.properties, "JobType"))
  {
    var props := PropsOf(f);
    var coords := CoordsOf(f);
    Permit(
      lon := Coordinate(coords, 0, parseFloat),
      lat := Coordinate(coords, 1, parseFloat),
      borough := Category(Get(props, "BOROUGH")),
      permitType := Category(Or(Get(props, "Permit Type"), Get(props, "PermitType"))),
      jobType := Category(Or(Get(props, "Job Type"), Get(props, "JobType"))),
      permitStatus := Category(Get(props, "Permit Status")),
      properties := props,
      raw := f)
  }

  /** A feature with neither `properties` nor `geometry` still yields a record:
      null coordinates and empty categories. */
  lemma BareFeature(parseFloat: string -> Number)
    ensures var p := ParsePermitFeature(Obj(map[]), parseFloat);
            p.lon.None? && p.lat.None? && p.borough == "" && p.permitType == ""
            && p.jobType == "" && p.permitStatus == "" && p.properties == Obj(map[])
  {
  }

  /** Parsing a point feature with a two-number coordinate array takes
      longitude first and latitude second. */
  lemma PointFeature(x: Number, y: Number, props: map<string, JsValue>, parseFloat: string -> Number)
    ensures var f := Obj(map["geometry" := Obj(map["coordinates" := Arr([Num(x), Num(y)])]),
                            "properties" := Obj(props)]);
            var p := ParsePermitFeature(f, parseFloat);
            p.lon == Some(parseFloat(ToStr(Num(x)))) && p.lat == Some(parseFloat(ToStr(Num(y))))
            && p.properties == Obj(props)
  {
    var coords := Arr([Num(x), Num(y)]);
    var g := Obj(map["coordinates" := coords]);
    var f := Obj(map["geometry" := g, "properties" := Obj(props)]);
    assert Get(f, "geometry") == g;
    assert Get(f, "properties") == Obj(props);
    assert CoordsOf(f) == coords;
    assert Index(coords, 0) == Num(x) && Index(coords, 1) == Num(y);
  }
}
