/** The parsed calendar as the service sees it: components, each a VEVENT with its
    properties or some other kind of component. A property has a name, a value and
    parameters, each parameter a list of values. */
module ICal {
  import opened Wrappers

  const DtStart: string := "DTSTART"
  const DtEnd: string := "DTEND"
  const Summary: string := "SUMMARY"
  const Description: string := "DESCRIPTION"
  const LocationName: string := "LOCATION"
  const Uid: string := "UID"

  datatype Property = Property(name: string, value: string, params: map<string, seq<string>>)

  datatype Component = VEvent(properties: seq<Property>) | OtherComponent(kind: string)

  /** GetProperty: the first property with the given name, if any. */
  function GetProperty(props: seq<Property>, name: string): (r: Option<Property>)
    ensures r.None? <==> forall i :: 0 <= i < |props| ==> props[i].name != name
    ensures r.Some? ==> exists i :: 0 <= i < |props| && props[i] == r.value && r.value.name == name
                          && forall j :: 0 <= j < i ==> props[j].name != name
  {
    if props == [] then None
    else if props[0].name == name then
      Some(props[0])
    else
      var r := GetProperty(props[1..], name);
      if r.Some? then
        var i :| 0 <= i < |props[1..]| && props[1..][i] == r.value && r.value.name == name
                 && forall j :: 0 <= j < i ==> props[1..][j].name != name;
        assert props[i + 1] == r.value;
        r
      else r
  }

  /** The first value of parameter `key`; none when the parameter is absent or its list is empty. */
  function FirstParam(params: map<string, seq<string>>, key: string): (r: Option<string>)
    ensures r.Some? <==> key in params && |params[key]| > 0
    ensures r.Some? ==> r.value == params[key][0]
  {
    if key in params && |params[key]| > 0 then Some(params[key][0]) else None
  }
}
