/** The `AdditionalTrustBundleConfig` asset: from the install configuration's
    additionalTrustBundle it generates the ConfigMap `user-ca-bundle` in
    namespace `openshift-config` and the manifest file that holds it. */
module TrustBundleConfig {
  import opened Wrappers
  import opened Externals
  import opened CertificateFilter

  const ConfigMapName: string := "user-ca-bundle"
  const ConfigMapNamespace: string := "openshift-config"
  /** The manifest directory is defined outside the modelled file. */
  const ManifestDir: string := "manifests"
  const FileName: string := ManifestDir + "/user-ca-bundle-config.yaml"

  /** The fields of a core/v1 ConfigMap that the asset sets. */
  datatype CoreConfigMap = CoreConfigMap(
    APIVersion: string, Kind: string, Namespace: string, Name: string, Data: map<string, Bytes>)

  /** A generated asset file: where it goes and its bytes. */
  datatype AssetFile = AssetFile(Filename: string, Data: Bytes)

  /** The ConfigMap Generate builds around the filtered data. */
  function UserCABundle(data: map<string, Bytes>): (cm: CoreConfigMap)
    ensures cm.Namespace == ConfigMapNamespace && cm.Name == ConfigMapName && cm.Data == data
    ensures cm.APIVersion == "v1" && cm.Kind == "ConfigMap"
  {
    CoreConfigMap("v1", "ConfigMap", ConfigMapNamespace, ConfigMapName, data)
  }

  class AdditionalTrustBundleConfig {
    var ConfigMap: Option<CoreConfigMap>
    var File: Option<AssetFile>

    /** What every generated state looks like: both fields set or neither, the
        ConfigMap with its fixed identity and the single data key, and the file
        at its fixed name. */
    ghost predicate Valid()
      reads this
    {
      (ConfigMap.Some? <==> File.Some?)
      && (ConfigMap.Some? ==>
            ConfigMap.value.Namespace == ConfigMapNamespace
            && ConfigMap.value.Name == ConfigMapName
            && ConfigMap.value.Data.Keys == {DataKey}
            && File.value.Filename == FileName)
    }

    /** The zero value of the Go struct: no ConfigMap, no File. */
    constructor ()
      ensures ConfigMap == None && File == None
      ensures Valid() && Files() == []
    {
      ConfigMap := None;
      File := None;
    }

    /** The human-friendly asset name, used when wrapping a serialiser error. */
    function Name(): (name: string)
      ensures name == "Additional Trust Bundle Config"
    {
      "Additional Trust Bundle Config"
    }

    /** `Generate`. An empty bundle is "feature off": no error, nothing set.
        A filter error or a serialiser error is returned and nothing is set.
        Otherwise both fields are set, together. `marshal` stands for
        `yaml.Marshal`. */
    method Generate(lib: Library, marshal: CoreConfigMap -> Result<Bytes, string>, additionalTrustBundle: Bytes)
      returns (err: Option<Error>)
      requires WellBehaved(lib)
      requires Valid()
      modifies this
      ensures Valid()
      ensures additionalTrustBundle == [] ==> err == None && ConfigMap == old(ConfigMap) && File == old(File)
      ensures additionalTrustBundle != [] && Bundle(lib, additionalTrustBundle).Failure? ==>
                err == Some(Bundle(lib, additionalTrustBundle).error)
                && ConfigMap == old(ConfigMap) && File == old(File)
      ensures additionalTrustBundle != [] && Bundle(lib, additionalTrustBundle).Success? ==>
                var cm := UserCABundle(map[DataKey := Bundle(lib, additionalTrustBundle).value]);
                match marshal(cm)
                case Failure(cause) =>
                  err == Some(Serialization(Name(), cause)) && ConfigMap == old(ConfigMap) && File == old(File)
                case Success(bytes) =>
                  err == None && ConfigMap == Some(cm) && File == Some(AssetFile(FileName, bytes))
                  && Files() == [AssetFile(FileName, bytes)]
    {
      if additionalTrustBundle == [] {
        return None;
      }
      var data := ParseCertificates(lib, additionalTrustBundle);
      if data.Failure? {
        return Some(data.error);
      }

      var cm := UserCABundle(data.value);

      var cmData := marshal(cm);
      if cmData.Failure? {
        return Some(Serialization(Name(), cmData.error));
      }
      ConfigMap := Some(cm);
      File := Some(AssetFile(FileName, cmData.value));
      return None;
    }

    /** `Files`: the stored file, if there is one. */
    function Files(): (files: seq<AssetFile>)
      reads this
      ensures |files| <= 1
      ensures files == [] <==> File == None
      ensures forall f :: f in files ==> File == Some(f)
      ensures Valid() ==> forall f :: f in files ==> f.Filename == FileName
    {
      if File.Some? then [File.value] else []
    }

    /** `Load`: this asset is never reconstructed from disk; it reports that
        nothing was loaded, without error and without changing any field. */
    method Load() returns (found: bool, err: Option<Error>)
      ensures !found && err == None
    {
      return false, None;
    }
  }
}
