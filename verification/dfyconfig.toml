# Checks every Dafny file of the project: dafny verify dfyconfig.toml
includes = ["**/*.dfy"]
